/**
 * Calling recvSerial until it hands out a message, as recieveMsg does and as
 * SerialSpec's handshake does once its token is non-empty.
 */
module Receive {
  import opened Utf8
  import opened Framing
  import opened Parser

  datatype Option<T> = None | Some(value: T)

  /** Where a receive stops: the message, if one came, the fields and the bytes left. */
  datatype Reception = Reception(msg: Option<string>, state: State, rest: seq<byte>)

  /**
   * recieveMsg over the bytes that will ever arrive: the first non-empty
   * text recvSerial returns. Where the source would poll an empty port for
   * ever, the model stops with no message.
   */
  function NextMessage(st: State, pending: seq<byte>): (n: Reception)
    ensures n.msg.Some? ==> n.msg.value != "" && n.msg.value == n.state.dataBuf
    ensures n.msg.None? ==> n.rest == []
    ensures !n.state.messageComplete
    ensures !st.messageComplete && n.msg.Some? ==> !n.state.dataStarted
    ensures |n.rest| <= |pending| && n.rest == pending[|pending| - |n.rest|..]
    decreases |pending|, if st.messageComplete then 1 else 0
  {
    if pending == [] && !st.messageComplete then Reception(None, st, pending)
    else
      var r := RecvSerial(st, pending);
      if r.msg != "" then Reception(Some(r.msg), r.state, r.rest)
      else NextMessage(r.state, r.rest)
  }

  /**
   * recieveMsg agrees with calling recvSerial once per byte: the k bytes it
   * consumes make k - 1 calls that return "" and a last call that returns
   * the message.
   */
  lemma {:induction false} MessageAfterBlanks(st: State, pending: seq<byte>)
    requires !st.messageComplete && NextMessage(st, pending).msg.Some?
    ensures var n := NextMessage(st, pending); var k := |pending| - |n.rest|;
      0 < k && Drive(st, pending[..k]) == Trace(n.state, Blank(k - 1) + [n.msg.value])
    decreases |pending|
  {
    var r := RecvSerial(st, pending);
    var n := NextMessage(st, pending);
    if r.msg == "" {
      assert n == NextMessage(r.state, pending[1..]);
      MessageAfterBlanks(r.state, pending[1..]);
      BlankBeforeRun(st, pending, |pending| - |n.rest|, n.state, n.msg.value);
    } else {
      assert n == Reception(Some(r.msg), r.state, pending[1..]);
      DriveFirstCall(st, pending, 1);
    }
  }

  /** A first call that returns "" puts one more "" in front of the run after it. */
  lemma {:induction false} BlankBeforeRun(st: State, pending: seq<byte>, k: nat, end: State, v: string)
    requires !st.messageComplete && 1 < k <= |pending| && RecvSerial(st, pending).msg == ""
    requires Drive(RecvSerial(st, pending).state, pending[1..][..k - 1]) == Trace(end, Blank(k - 2) + [v])
    ensures Drive(st, pending[..k]) == Trace(end, Blank(k - 1) + [v])
  {
    DriveFirstCall(st, pending, k);
    assert Blank(k - 1) + [v] == [""] + (Blank(k - 2) + [v]);
  }

  /** A run over the first k pending bytes starts with the call on the first one. */
  lemma {:induction false} DriveFirstCall(st: State, pending: seq<byte>, k: nat)
    requires !st.messageComplete && 0 < k <= |pending|
    ensures var r := RecvSerial(st, pending); var t := Drive(r.state, pending[1..][..k - 1]);
      Drive(st, pending[..k]) == Trace(t.state, [r.msg] + t.msgs)
  {
    var r := RecvSerial(st, pending);
    assert pending[..k][1..] == pending[1..][..k - 1];
    assert RecvSerial(st, pending[..k]) == Step(r.state, pending[..k][1..], r.msg);
  }

  /** When recieveMsg finds no message, every call over the input returns "". */
  lemma {:induction false} NoMessageAllBlank(st: State, pending: seq<byte>)
    requires !st.messageComplete && NextMessage(st, pending).msg.None?
    ensures Drive(st, pending) == Trace(NextMessage(st, pending).state, Blank(|pending|))
    decreases |pending|
  {
    if pending != [] {
      var r := RecvSerial(st, pending);
      assert NextMessage(st, pending) == NextMessage(r.state, pending[1..]);
      NoMessageAllBlank(r.state, pending[1..]);
    }
  }

  /**
   * Input on which every call returns "" is consumed without ending the
   * receive, which goes on from the state after it.
   */
  lemma {:induction false} SkipSilent(st: State, a: seq<byte>, b: seq<byte>)
    requires !st.messageComplete && Drive(st, a).msgs == Blank(|a|)
    ensures NextMessage(st, a + b) == NextMessage(Drive(st, a).state, b)
    decreases a
  {
    if a == [] {
      assert a + b == b;
    } else {
      var r := RecvSerial(st, a);
      assert (a + b)[1..] == a[1..] + b;
      assert RecvSerial(st, a + b) == Step(r.state, a[1..] + b, r.msg);
      var t := Drive(r.state, a[1..]);
      assert Drive(st, a) == Trace(t.state, [r.msg] + t.msgs);
      assert r.msg == "" && t.msgs == Blank(|a| - 1) by {
        assert ([r.msg] + t.msgs)[0] == Blank(|a|)[0];
        assert ([r.msg] + t.msgs)[1..] == Blank(|a|)[1..];
      }
      SkipSilent(r.state, a[1..], b);
    }
  }

  /**
   * What sendMsg writes, recieveMsg returns: after noise without '<', a
   * packet with a non-empty payload free of '>' is received as the
   * receiver's decoding of the payload, and every byte after the packet is
   * left pending. An ASCII payload comes back unchanged.
   */
  lemma {:induction false} ReceivesFrame(st: State, noise: seq<byte>, m: string, rest: seq<byte>)
    requires Idle(st) && START_BYTE !in noise && '>' !in m && m != ""
    ensures NextMessage(st, noise + Wire(m) + rest) ==
      Reception(Some(Received(m)), State(false, Received(m), false), rest)
    ensures IsAscii(m) ==> NextMessage(st, noise + Wire(m) + rest).msg == Some(m)
  {
    var text := Received(m);
    var head := noise + [START_BYTE] + Encode(m);
    FrameUpToEnd(st, noise, m, rest);
    SkipSilent(st, head, [END_BYTE] + rest);
    EndMarkerDelivers(text, rest);
    if IsAscii(m) {
      AsciiRoundTrip(m);
    }
  }

  /**
   * Everything of the noise and the packet but its end marker is read
   * silently, leaving the frame open with the decoded payload.
   */
  lemma {:induction false} FrameUpToEnd(st: State, noise: seq<byte>, m: string, rest: seq<byte>)
    requires Idle(st) && START_BYTE !in noise && '>' !in m
    ensures var head := noise + [START_BYTE] + Encode(m);
      noise + Wire(m) + rest == head + ([END_BYTE] + rest) &&
      Drive(st, head) == Trace(State(true, Received(m), false), Blank(|head|))
  {
    var p := Encode(m);
    var head := noise + [START_BYTE] + p;
    WireSplitsAtEnd(noise, m, rest);
    PayloadKeepsFrameOpen(m);
    OpenFrame(st, noise, p);
    assert |head| == |noise| + 1 + |p|;
  }

  /** Noise, a packet and what follows, cut just before the packet's end marker. */
  lemma {:induction false} WireSplitsAtEnd(noise: seq<byte>, m: string, rest: seq<byte>)
    ensures noise + Wire(m) + rest == (noise + [START_BYTE] + Encode(m)) + ([END_BYTE] + rest)
  {
    WireLayout(m);
    var p := Encode(m);
    calc {
      noise + Wire(m) + rest;
      noise + ([START_BYTE] + p + [END_BYTE]) + rest;
      { assert noise + ([START_BYTE] + p + [END_BYTE]) == (noise + [START_BYTE] + p) + [END_BYTE]; }
      (noise + [START_BYTE] + p) + [END_BYTE] + rest;
      (noise + [START_BYTE] + p) + ([END_BYTE] + rest);
    }
  }

  /** The end marker of an open frame holding non-empty text ends the receive with that text. */
  lemma {:induction false} EndMarkerDelivers(text: string, rest: seq<byte>)
    requires text != ""
    ensures NextMessage(State(true, text, false), [END_BYTE] + rest) ==
      Reception(Some(text), State(false, text, false), rest)
  {
    EndYieldsBuffer(State(true, text, false), rest);
  }

  /**
   * Two packets sent back to back are received by two receives, in the
   * order they were sent, and the bytes after them stay pending.
   */
  lemma {:induction false} ReceivesInOrder(st: State, m1: string, m2: string, rest: seq<byte>)
    requires Idle(st) && '>' !in m1 && m1 != "" && '>' !in m2 && m2 != ""
    ensures var first := NextMessage(st, Wire(m1) + Wire(m2) + rest);
      first == Reception(Some(Received(m1)), State(false, Received(m1), false), Wire(m2) + rest) &&
      NextMessage(first.state, first.rest) ==
        Reception(Some(Received(m2)), State(false, Received(m2), false), rest)
  {
    assert Wire(m1) + Wire(m2) + rest == [] + Wire(m1) + (Wire(m2) + rest);
    ReceivesFrame(st, [], m1, Wire(m2) + rest);
    assert Wire(m2) + rest == [] + Wire(m2) + rest;
    ReceivesFrame(State(false, Received(m1), false), [], m2, rest);
  }

  /**
   * An empty packet "<>" is consumed without being returned: the receive
   * goes on past it, so sendMsg("") delivers nothing.
   */
  lemma {:induction false} EmptyFrameSkipped(st: State, rest: seq<byte>)
    requires Idle(st)
    ensures NextMessage(st, Wire("") + rest) == NextMessage(State(false, "", false), rest)
  {
    EmptyFrameLooksLikeNothing(st);
    SkipSilent(st, Wire(""), rest);
  }
}
