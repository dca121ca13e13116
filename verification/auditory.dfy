/**
 * Auditory: the host end of the serial link. It frames outgoing text with
 * the markers, parses incoming bytes one per recvSerial call, and on setup
 * waits until a received message contains the readiness token.
 */
module Auditory {
  import opened Utf8
  import opened Framing
  import opened Parser
  import opened SerialPort
  import Receive

  /** `needle` occurs in `s` starting at index k. */
  predicate OccursAt(s: string, needle: string, k: int) {
    0 <= k && k + |needle| <= |s| && s[k..k + |needle|] == needle
  }

  /** Looking past the first character of s is looking in s[1..]. */
  lemma {:induction false} OccursShift(s: string, needle: string)
    requires s != []
    ensures forall k :: 1 <= k ==> (OccursAt(s, needle, k) <==> OccursAt(s[1..], needle, k - 1))
  {
    forall k | 1 <= k
      ensures OccursAt(s, needle, k) <==> OccursAt(s[1..], needle, k - 1)
    {
      if k + |needle| <= |s| {
        assert s[1..][k - 1..k - 1 + |needle|] == s[k..k + |needle|];
      }
    }
  }

  /**
   * str.find: the lowest index at which `needle` occurs in `s`, or -1 when
   * it occurs nowhere (the empty needle occurs at 0, even in "").
   */
  function Find(s: string, needle: string): (i: int)
    ensures i == -1 || OccursAt(s, needle, i)
    ensures i == -1 ==> forall k :: !OccursAt(s, needle, k)
    ensures forall k :: 0 <= k < i ==> !OccursAt(s, needle, k)
    decreases |s|
  {
    if needle <= s then
      assert s[0..|needle|] == needle;
      0
    else if s == [] then -1
    else
      OccursShift(s, needle);
      assert !OccursAt(s, needle, 0);
      var j := Find(s[1..], needle);
      if j == -1 then -1 else j + 1
  }

  /**
   * waitForConnection, over the bytes that will ever arrive: the text the
   * last call returned is searched for the token before each recvSerial
   * call. Where the source would poll an empty port for ever, the model
   * stops and reports that the token was not seen.
   */
  function AwaitToken(st: State, pending: seq<byte>, token: string, msg: string): (h: Handshake)
    ensures h.connected <==> Find(h.msg, token) != -1
    ensures !h.connected ==> h.rest == [] && !h.state.messageComplete
    ensures !st.messageComplete ==> !h.state.messageComplete
    ensures |h.rest| <= |pending| && h.rest == pending[|pending| - |h.rest|..]
    decreases |pending|, if st.messageComplete then 1 else 0
  {
    if Find(msg, token) != -1 then Handshake(true, st, pending, msg)
    else if pending == [] && !st.messageComplete then Handshake(false, st, pending, msg)
    else
      var r := RecvSerial(st, pending);
      AwaitToken(r.state, r.rest, token, r.msg)
  }

  /** An empty token is found in "" at once: no byte is read. */
  lemma {:induction false} EmptyTokenReadsNothing(st: State, pending: seq<byte>)
    ensures AwaitToken(st, pending, "", "") == Handshake(true, st, pending, "")
  {
    assert Find("", "") == 0;
  }

  /**
   * A stretch of input on which every call returns "" never ends the wait:
   * the wait goes on from the state after it as if it had begun there.
   */
  lemma {:induction false} SkipSilent(st: State, a: seq<byte>, b: seq<byte>, token: string, msg: string)
    requires !st.messageComplete && a != [] && Find(msg, token) == -1
    requires Drive(st, a).msgs == Blank(|a|)
    ensures AwaitToken(st, a + b, token, msg) == AwaitToken(Drive(st, a).state, b, token, "")
    decreases a
  {
    var r := RecvSerial(st, a);
    assert (a + b)[1..] == a[1..] + b;
    assert RecvSerial(st, a + b) == Step(r.state, a[1..] + b, r.msg);
    var t := Drive(r.state, a[1..]);
    assert Drive(st, a) == Trace(t.state, [r.msg] + t.msgs);
    assert r.msg == "" && t.msgs == Blank(|a| - 1) by {
      assert ([r.msg] + t.msgs)[0] == Blank(|a|)[0];
      assert ([r.msg] + t.msgs)[1..] == Blank(|a|)[1..];
    }
    assert Find("", token) == -1;
    if a[1..] != [] {
      SkipSilent(r.state, a[1..], b, token, "");
    } else {
      assert a[1..] + b == b;
    }
  }

  /**
   * One frame on the way to the token: its text is handed out by the call
   * that reads its end marker; if the token occurs in it the wait ends
   * there with the bytes after the frame untouched, otherwise it goes on.
   */
  lemma {:induction false} AwaitThroughFrame(st: State, m: string, rest: seq<byte>, token: string, msg: string)
    requires Idle(st) && '>' !in m && Find(msg, token) == -1
    ensures var text := Received(m);
      AwaitToken(st, Wire(m) + rest, token, msg) ==
        if Find(text, token) != -1 then Handshake(true, State(false, text, false), rest, text)
        else AwaitToken(State(false, text, false), rest, token, text)
  {
    var p := Encode(m);
    var text := Received(m);
    var head := [START_BYTE] + p;
    WireLayout(m);
    PayloadKeepsFrameOpen(m);
    OpenFrame(st, [], p);
    assert [] + [START_BYTE] + p == head;
    BlankAppend(0, 1 + |p|);
    assert Wire(m) + rest == head + ([END_BYTE] + rest);
    SkipSilent(st, head, [END_BYTE] + rest, token, msg);
    var open := State(true, text, false);
    EndYieldsBuffer(open, rest);
    assert Find("", token) == -1;
  }

  /**
   * The handshake as a device performs it: frames whose text lacks the token
   * are consumed and ignored, and the first frame whose text contains it
   * ends the wait, connected, with every later byte still pending.
   */
  lemma {:induction false} ReadyAfterUnrelatedFrames(st: State, ms: seq<string>, t: string, rest: seq<byte>, token: string, msg: string)
    requires Idle(st) && Find(msg, token) == -1
    requires forall i :: 0 <= i < |ms| ==> '>' !in ms[i] && Find(Received(ms[i]), token) == -1
    requires '>' !in t && Find(Received(t), token) != -1
    ensures AwaitToken(st, Wires(ms) + Wire(t) + rest, token, msg) ==
      Handshake(true, State(false, Received(t), false), rest, Received(t))
    decreases ms
  {
    if ms == [] {
      assert Wires(ms) + Wire(t) + rest == Wire(t) + rest;
      AwaitThroughFrame(st, t, rest, token, msg);
    } else {
      var text := Received(ms[0]);
      var later := Wires(ms[1..]) + Wire(t) + rest;
      assert Wires(ms) + Wire(t) + rest == Wire(ms[0]) + later;
      AwaitThroughFrame(st, ms[0], later, token, msg);
      ReadyAfterUnrelatedFrames(State(false, text, false), ms[1..], t, rest, token, text);
    }
  }

  /**
   * A line that never carries a '<' never completes the handshake: with a
   * non-empty token every byte is read and the wait ends unconnected.
   */
  lemma {:induction false} NoFrameNoConnection(st: State, noise: seq<byte>, token: string)
    requires Idle(st) && START_BYTE !in noise && token != ""
    ensures AwaitToken(st, noise, token, "") == Handshake(false, st, [], "")
  {
    assert Find("", token) == -1;
    if noise != [] {
      NoiseIgnored(st, noise);
      SkipSilent(st, noise, [], token, "");
      assert noise + [] == noise;
    }
  }

  /** No message in `msgs` contains the token. */
  predicate NoneContains(msgs: seq<string>, token: string) {
    forall i :: 0 <= i < |msgs| ==> Find(msgs[i], token) == -1
  }

  /**
   * `msgs` are the calls a wait that ended in `h` made, one per byte: if
   * connected, the last of them returned `h.msg` and no earlier one
   * contained the token; if not, none of them contained it.
   */
  predicate FirstMatch(msgs: seq<string>, token: string, h: Handshake) {
    (h.connected ==> 0 < |msgs| && msgs[|msgs| - 1] == h.msg && NoneContains(msgs[..|msgs| - 1], token)) &&
    (!h.connected ==> NoneContains(msgs, token))
  }

  /** Running recvSerial once per byte the wait consumed agrees with the wait `h`. */
  predicate DriveAgrees(st: State, pending: seq<byte>, token: string, h: Handshake) {
    !st.messageComplete && |h.rest| <= |pending| &&
    var t := Drive(st, pending[..|pending| - |h.rest|]);
    t.state == h.state && FirstMatch(t.msgs, token, h)
  }

  /**
   * The wait, for any input, against calling recvSerial once per byte: over
   * the k bytes it consumes, a connected wait ends on the first message
   * that contains the token (no earlier one did), and an unconnected wait
   * saw no message containing it at all.
   */
  lemma {:induction false} AwaitMatchesDrive(st: State, pending: seq<byte>, token: string, msg: string)
    requires !st.messageComplete && Find(msg, token) == -1
    ensures var h := AwaitToken(st, pending, token, msg);
      var k := |pending| - |h.rest|;
      var t := Drive(st, pending[..k]);
      t.state == h.state &&
      (h.connected ==> (0 < k && t.msgs[k - 1] == h.msg && NoneContains(t.msgs[..k - 1], token))) &&
      (!h.connected ==> NoneContains(t.msgs, token))
  {
    AwaitAgrees(st, pending, token, msg);
  }

  /** AwaitMatchesDrive, by induction on the pending bytes. */
  lemma {:induction false} AwaitAgrees(st: State, pending: seq<byte>, token: string, msg: string)
    requires !st.messageComplete && Find(msg, token) == -1
    ensures DriveAgrees(st, pending, token, AwaitToken(st, pending, token, msg))
    decreases |pending|
  {
    if pending == [] {
      NothingToAwait(st, token, msg);
    } else if Find(RecvSerial(st, pending).msg, token) != -1 {
      FirstCallMatches(st, pending, token, msg);
    } else {
      var r := RecvSerial(st, pending);
      AwaitAgrees(r.state, pending[1..], token, r.msg);
      SilentCallFirst(st, pending, token, msg);
    }
  }

  /** With nothing pending and no token seen, the wait ends unconnected after no call. */
  lemma {:induction false} NothingToAwait(st: State, token: string, msg: string)
    requires !st.messageComplete && Find(msg, token) == -1
    ensures DriveAgrees(st, [], token, AwaitToken(st, [], token, msg))
  {
    var e: seq<byte> := [];
    assert e[..0] == [];
  }

  /** A first call whose text contains the token ends the wait on the first byte. */
  lemma {:induction false} FirstCallMatches(st: State, pending: seq<byte>, token: string, msg: string)
    requires !st.messageComplete && Find(msg, token) == -1 && pending != []
    requires Find(RecvSerial(st, pending).msg, token) != -1
    ensures DriveAgrees(st, pending, token, AwaitToken(st, pending, token, msg))
  {
    var r := RecvSerial(st, pending);
    var h := AwaitToken(st, pending, token, msg);
    assert h == AwaitToken(r.state, pending[1..], token, r.msg);
    assert h == Handshake(true, r.state, pending[1..], r.msg);
    Receive.DriveFirstCall(st, pending, 1);
    var t := Drive(st, pending[..1]);
    assert t.msgs == [r.msg];
    assert t.msgs[..0] == [];
  }

  /** A first call without the token, in front of a run that agrees with the rest of the wait, keeps the agreement. */
  lemma {:induction false} SilentCallFirst(st: State, pending: seq<byte>, token: string, msg: string)
    requires !st.messageComplete && Find(msg, token) == -1 && pending != []
    requires var r := RecvSerial(st, pending);
      Find(r.msg, token) == -1 &&
      DriveAgrees(r.state, pending[1..], token, AwaitToken(r.state, pending[1..], token, r.msg))
    ensures DriveAgrees(st, pending, token, AwaitToken(st, pending, token, msg))
  {
    var r := RecvSerial(st, pending);
    assert AwaitToken(st, pending, token, msg) == AwaitToken(r.state, pending[1..], token, r.msg);
    PrependSilentCall(st, pending, token, AwaitToken(st, pending, token, msg));
  }

  /** SilentCallFirst for any outcome `h` of the rest of the wait. */
  lemma {:induction false} PrependSilentCall(st: State, pending: seq<byte>, token: string, h: Handshake)
    requires !st.messageComplete && pending != []
    requires Find(RecvSerial(st, pending).msg, token) == -1
    requires DriveAgrees(RecvSerial(st, pending).state, pending[1..], token, h)
    ensures DriveAgrees(st, pending, token, h)
  {
    var r := RecvSerial(st, pending);
    var k := |pending| - |h.rest|;
    var t' := Drive(r.state, pending[1..][..k - 1]);
    Receive.DriveFirstCall(st, pending, k);
    assert Drive(st, pending[..k]) == Trace(t'.state, [r.msg] + t'.msgs);
    FirstMatchAfterSilent(r.msg, t'.msgs, token, h);
  }

  /** Putting a message without the token in front keeps the first-match facts. */
  lemma {:induction false} FirstMatchAfterSilent(x: string, ms: seq<string>, token: string, h: Handshake)
    requires Find(x, token) == -1 && FirstMatch(ms, token, h)
    ensures FirstMatch([x] + ms, token, h)
  {
    var s := [x] + ms;
    if h.connected {
      assert s[..|s| - 1] == [x] + ms[..|ms| - 1];
    }
  }

  /**
   * Noise at boot, then the ready packet: bytes without '<' are read and
   * dropped, and the packet whose text contains the token ends the wait,
   * connected, with every later byte still pending.
   */
  lemma {:induction false} ReadyAfterNoise(st: State, noise: seq<byte>, t: string, rest: seq<byte>, token: string)
    requires Idle(st) && START_BYTE !in noise && token != ""
    requires '>' !in t && Find(Received(t), token) != -1
    ensures AwaitToken(st, noise + Wire(t) + rest, token, "") ==
      Handshake(true, State(false, Received(t), false), rest, Received(t))
  {
    assert Find("", token) == -1;
    if noise != [] {
      NoiseIgnored(st, noise);
      assert noise + Wire(t) + rest == noise + (Wire(t) + rest);
      SkipSilent(st, noise, Wire(t) + rest, token, "");
    } else {
      assert noise + Wire(t) + rest == Wire(t) + rest;
    }
    AwaitThroughFrame(st, t, rest, token, "");
  }

  class Auditory {
    /** The text the device sends once it is ready. */
    var readyVerification: string
    var dataStarted: bool
    var dataBuf: string
    var messageComplete: bool
    var serialPort: Port?

    /** The parser fields recvSerial works on. */
    function Fields(): State
      reads this
    {
      State(dataStarted, dataBuf, messageComplete)
    }

    /**
     * Sets the fields to their initial values, then opens the port and waits
     * for the device's readiness token before returning.
     */
    constructor (readyVerification: string, port: Port)
      modifies port
      ensures this.readyVerification == readyVerification && serialPort == port
      ensures var h := AwaitToken(INITIAL, old(port.pending), readyVerification, "");
        Fields() == h.state && port.pending == h.rest
      ensures port.written == old(port.written)
    {
      this.readyVerification := readyVerification;
      dataStarted := false;
      dataBuf := "";
      messageComplete := false;
      serialPort := null;
      new;
      SetupSerial(port);
    }

    /** Uses the opened port and waits for the device to report it is ready. */
    method SetupSerial(port: Port)
      modifies this, port
      ensures serialPort == port && readyVerification == old(readyVerification)
      ensures var h := AwaitToken(old(Fields()), old(port.pending), readyVerification, "");
        Fields() == h.state && port.pending == h.rest
      ensures port.written == old(port.written)
    {
      serialPort := port;
      var connected := WaitForConnection();
    }

    /** Writes one packet: the start marker, the text and the end marker, UTF-8 encoded. */
    method SendSerial(stringToSend: string)
      requires serialPort != null
      modifies serialPort`written
      ensures serialPort.written == old(serialPort.written) + Wire(stringToSend)
    {
      var stringWithMarkers := START_MARKER;
      stringWithMarkers := stringWithMarkers + stringToSend;
      stringWithMarkers := stringWithMarkers + END_MARKER;
      serialPort.Write(Encode(stringWithMarkers));
    }

    /**
     * Reads at most one byte and advances the parser; returns the buffered
     * text on the call that completes a frame and "" otherwise.
     */
    method RecvSerial() returns (msg: string)
      requires serialPort != null
      modifies this`dataStarted, this`dataBuf, this`messageComplete, serialPort`pending
      ensures var r := Parser.RecvSerial(old(Fields()), old(serialPort.pending));
        Fields() == r.state && serialPort.pending == r.rest && msg == r.msg
    {
      var waiting := serialPort.InWaiting();
      if waiting > 0 && !messageComplete {
        var raw := serialPort.Read();
        var x := DecodeEach(raw);
        assert x == [DecodeSingle(raw[0])];
        if dataStarted {
          if x != END_MARKER {
            dataBuf := dataBuf + x;
          } else {
            dataStarted := false;
            messageComplete := true;
          }
        } else if x == START_MARKER {
          dataBuf := "";
          dataStarted := true;
        }
      }
      if messageComplete {
        messageComplete := false;
        return dataBuf;
      } else {
        return "";
      }
    }

    /**
     * Calls recvSerial until the text it returned contains the readiness
     * token. The result says whether the token was seen before the input
     * ran out.
     */
    method WaitForConnection() returns (connected: bool)
      requires serialPort != null
      modifies this`dataStarted, this`dataBuf, this`messageComplete, serialPort`pending
      ensures var h := AwaitToken(old(Fields()), old(serialPort.pending), readyVerification, "");
        connected == h.connected && Fields() == h.state && serialPort.pending == h.rest
    {
      var msg := "";
      while Find(msg, readyVerification) == -1
        invariant AwaitToken(Fields(), serialPort.pending, readyVerification, msg) ==
          AwaitToken(old(Fields()), old(serialPort.pending), readyVerification, "")
        decreases |serialPort.pending|, if messageComplete then 1 else 0
      {
        var waiting := serialPort.InWaiting();
        if waiting == 0 && !messageComplete {
          // nothing more will arrive: the source would poll here for ever
          return false;
        }
        msg := RecvSerial();
      }
      return true;
    }
  }
}
