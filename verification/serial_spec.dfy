/**
 * SerialSpec: the same framing and receive parser as Auditory, with setup
 * separate from construction and a handshake that stops at the first
 * message of any kind.
 */
module SerialSpec {
  import opened Utf8
  import opened Framing
  import opened Parser
  import opened Receive
  import opened SerialPort

  /** str.startswith: `prefix` is the beginning of `s`. */
  predicate StartsWith(s: string, prefix: string) {
    |prefix| <= |s| && s[..|prefix|] == prefix
  }

  /**
   * waitForConnection of SerialSpec, over the bytes that will ever arrive:
   * it stops when the last text starts with the token, or at once after any
   * call that returned non-empty text (the loop breaks there). Where the
   * source would poll an empty port for ever, the model stops unconnected.
   */
  function AwaitMessage(st: State, pending: seq<byte>, token: string, msg: string): (h: Handshake)
    ensures h.connected ==> StartsWith(h.msg, token) || h.msg != ""
    ensures !h.connected ==> h.rest == [] && !(StartsWith(h.msg, token)) && !h.state.messageComplete
    ensures !h.connected && msg == "" ==> h.msg == ""
    ensures !st.messageComplete ==> !h.state.messageComplete
    ensures |h.rest| <= |pending| && h.rest == pending[|pending| - |h.rest|..]
    decreases |pending|, if st.messageComplete then 1 else 0
  {
    if StartsWith(msg, token) then Handshake(true, st, pending, msg)
    else if pending == [] && !st.messageComplete then Handshake(false, st, pending, msg)
    else
      var r := RecvSerial(st, pending);
      if r.msg != "" then Handshake(true, r.state, r.rest, r.msg)
      else AwaitMessage(r.state, r.rest, token, r.msg)
  }

  /** Every text starts with the empty token: no byte is read. */
  lemma {:induction false} EmptyTokenReturnsAtOnce(st: State, pending: seq<byte>)
    ensures AwaitMessage(st, pending, "", "") == Handshake(true, st, pending, "")
  {
  }

  /**
   * With a non-empty token the handshake is exactly a receive: it ends,
   * connected, on the first message recieveMsg would return, in the same
   * state and with the same bytes left, and ends unconnected exactly when
   * no message comes.
   */
  lemma {:induction false} HandshakeIsFirstMessage(st: State, pending: seq<byte>, token: string)
    requires token != "" && !st.messageComplete
    ensures var h := AwaitMessage(st, pending, token, "");
      var n := NextMessage(st, pending);
      h.connected == n.msg.Some? && h.state == n.state && h.rest == n.rest &&
      (n.msg.Some? ==> h.msg == n.msg.value)
    decreases |pending|
  {
    if pending != [] {
      var r := RecvSerial(st, pending);
      if r.msg == "" {
        HandshakeIsFirstMessage(r.state, pending[1..], token);
      }
    }
  }

  /**
   * The token is not checked against what arrives: after noise without
   * '<', any packet with a non-empty payload free of '>' completes the
   * handshake, whatever the token, and its text is the last message.
   */
  lemma {:induction false} AcceptsAnyMessage(st: State, noise: seq<byte>, m: string, rest: seq<byte>, token: string)
    requires Idle(st) && START_BYTE !in noise && '>' !in m && m != "" && token != ""
    ensures AwaitMessage(st, noise + Wire(m) + rest, token, "") ==
      Handshake(true, State(false, Received(m), false), rest, Received(m))
  {
    HandshakeIsFirstMessage(st, noise + Wire(m) + rest, token);
    ReceivesFrame(st, noise, m, rest);
  }

  class SerialSpec {
    /** The text the device is expected to send once it is ready. */
    var readyVerification: string
    var dataStarted: bool
    var dataBuf: string
    var messageComplete: bool
    var serialPort: Port?

    /** The parser fields recvSerial works on. */
    function Fields(): State
      reads this
    {
      State(dataStarted, dataBuf, messageComplete)
    }

    /** Sets the fields to their initial values; no port is open yet. */
    constructor (readyVerification: string)
      ensures this.readyVerification == readyVerification
      ensures Fields() == INITIAL && serialPort == null
    {
      this.readyVerification := readyVerification;
      dataStarted := false;
      dataBuf := "";
      messageComplete := false;
      serialPort := null;
    }

    /** Uses the opened port and waits for the device's first message. */
    method SetupSerial(port: Port)
      modifies this, port
      ensures serialPort == port && readyVerification == old(readyVerification)
      ensures var h := AwaitMessage(old(Fields()), old(port.pending), readyVerification, "");
        Fields() == h.state && port.pending == h.rest
      ensures port.written == old(port.written)
    {
      serialPort := port;
      var connected := WaitForConnection();
    }

    /** Writes one packet: the start marker, the text and the end marker, UTF-8 encoded. */
    method SendSerial(stringToSend: string)
      requires serialPort != null
      modifies serialPort`written
      ensures serialPort.written == old(serialPort.written) + Wire(stringToSend)
    {
      var stringWithMarkers := START_MARKER;
      stringWithMarkers := stringWithMarkers + stringToSend;
      stringWithMarkers := stringWithMarkers + END_MARKER;
      serialPort.Write(Encode(stringWithMarkers));
    }

    /**
     * Reads at most one byte and advances the parser; returns the buffered
     * text on the call that completes a frame and "" otherwise.
     */
    method RecvSerial() returns (msg: string)
      requires serialPort != null
      modifies this`dataStarted, this`dataBuf, this`messageComplete, serialPort`pending
      ensures var r := Parser.RecvSerial(old(Fields()), old(serialPort.pending));
        Fields() == r.state && serialPort.pending == r.rest && msg == r.msg
    {
      var waiting := serialPort.InWaiting();
      if waiting > 0 && !messageComplete {
        var raw := serialPort.Read();
        var x := DecodeEach(raw);
        assert x == [DecodeSingle(raw[0])];
        if dataStarted {
          if x != END_MARKER {
            dataBuf := dataBuf + x;
          } else {
            dataStarted := false;
            messageComplete := true;
          }
        } else if x == START_MARKER {
          dataBuf := "";
          dataStarted := true;
        }
      }
      if messageComplete {
        messageComplete := false;
        return dataBuf;
      } else {
        return "";
      }
    }

    /**
     * Calls recvSerial until the last text starts with the token, leaving
     * the loop as soon as a call returns any non-empty text. The result says
     * whether the loop ended before the input ran out.
     */
    method WaitForConnection() returns (connected: bool)
      requires serialPort != null
      modifies this`dataStarted, this`dataBuf, this`messageComplete, serialPort`pending
      ensures var h := AwaitMessage(old(Fields()), old(serialPort.pending), readyVerification, "");
        connected == h.connected && Fields() == h.state && serialPort.pending == h.rest
    {
      var msg := "";
      while !StartsWith(msg, readyVerification)
        invariant AwaitMessage(Fields(), serialPort.pending, readyVerification, msg) ==
          AwaitMessage(old(Fields()), old(serialPort.pending), readyVerification, "")
        decreases |serialPort.pending|, if messageComplete then 1 else 0
      {
        var waiting := serialPort.InWaiting();
        if waiting == 0 && !messageComplete {
          // nothing more will arrive: the source would poll here for ever
          return false;
        }
        ghost var before := Fields();
        ghost var left := serialPort.pending;
        ghost var last := msg;
        msg := RecvSerial();
        assert AwaitMessage(before, left, readyVerification, last) ==
          if msg != "" then Handshake(true, Fields(), serialPort.pending, msg)
          else AwaitMessage(Fields(), serialPort.pending, readyVerification, msg);
        if msg != "" {
          break;
        }
      }
      return true;
    }
  }
}
