/**
 * The receive state machine shared by Auditory and SerialSpec, as a function
 * of the three parser fields and the bytes waiting on the port. The classes'
 * recvSerial methods are proved to compute exactly this function.
 */
module Parser {
  import opened Utf8
  import opened Framing

  /** The instance fields recvSerial reads and updates. */
  datatype State = State(dataStarted: bool, dataBuf: string, messageComplete: bool)

  /** The fields as both constructors set them. */
  const INITIAL: State := State(false, "", false)

  /** Outside any frame, with nothing waiting to be handed out. */
  predicate Idle(st: State) {
    !st.dataStarted && !st.messageComplete
  }

  /** The outcome of one recvSerial call: new fields, bytes still pending, returned text. */
  datatype Step = Step(state: State, rest: seq<byte>, msg: string)

  /** What one decoded character does to the fields. */
  function Consume(st: State, x: string): State {
    if st.dataStarted then
      if x != END_MARKER then st.(dataBuf := st.dataBuf + x)
      else st.(dataStarted := false, messageComplete := true)
    else if x == START_MARKER then st.(dataBuf := "", dataStarted := true)
    else st
  }

  /**
   * One recvSerial call. At most one pending byte is read and decoded on its
   * own; a completed frame is handed out once and messageComplete is cleared
   * again before returning; otherwise the call returns "".
   */
  function RecvSerial(st: State, pending: seq<byte>): (r: Step)
    ensures !r.state.messageComplete
    ensures !st.messageComplete && pending != [] ==> r.rest == pending[1..]
    ensures st.messageComplete || pending == [] ==> r.rest == pending
    ensures r.msg != "" ==> r.msg == r.state.dataBuf
    // from a state between calls, text comes out only when an end marker
    // closes an open frame, and the frame is then closed
    ensures !st.messageComplete && r.msg != "" ==>
      st.dataStarted && pending != [] && pending[0] == END_BYTE && !r.state.dataStarted
  {
    var reading := |pending| > 0 && !st.messageComplete;
    var mid := if reading then Consume(st, [DecodeSingle(pending[0])]) else st;
    var rest := if reading then pending[1..] else pending;
    if mid.messageComplete then Step(mid.(messageComplete := false), rest, mid.dataBuf)
    else Step(mid, rest, "")
  }

  /** What the receiver makes of a payload's bytes: each byte decoded on its own. */
  function Received(payload: string): string {
    DecodeEach(Encode(payload))
  }

  /** n calls that returned nothing. */
  function Blank(n: nat): seq<string> {
    if n == 0 then [] else [""] + Blank(n - 1)
  }

  /**
   * Where a loop waiting for a readiness message stops: whether it saw one,
   * the fields and the bytes left, and the last text recvSerial returned.
   */
  datatype Handshake = Handshake(connected: bool, state: State, rest: seq<byte>, msg: string)

  /** The fields after a run of calls and the text each call returned. */
  datatype Trace = Trace(state: State, msgs: seq<string>)

  /**
   * Calling recvSerial until no byte is left: from a state between calls,
   * every call consumes one byte, so there is one call per pending byte.
   */
  function Drive(st: State, pending: seq<byte>): (t: Trace)
    requires !st.messageComplete
    ensures |t.msgs| == |pending|
    ensures !t.state.messageComplete
    decreases |pending|
  {
    if pending == [] then Trace(st, [])
    else
      var r := RecvSerial(st, pending);
      var t := Drive(r.state, r.rest);
      Trace(t.state, [r.msg] + t.msgs)
  }

  lemma {:induction false} BlankAppend(m: nat, n: nat)
    ensures Blank(m) + Blank(n) == Blank(m + n)
  {
    if m > 0 {
      BlankAppend(m - 1, n);
      assert Blank(m) + Blank(n) == [""] + (Blank(m - 1) + Blank(n));
    }
  }

  /** With nothing pending, a call between frames changes nothing and returns "". */
  lemma {:induction false} NothingPending(st: State)
    requires !st.messageComplete
    ensures RecvSerial(st, []) == Step(st, [], "")
  {
  }

  /** Outside a frame every byte other than '<' is read and dropped. */
  lemma {:induction false} NoiseByteDropped(st: State, b: byte, rest: seq<byte>)
    requires Idle(st) && b != START_BYTE
    ensures RecvSerial(st, [b] + rest) == Step(st, rest, "")
  {
    assert ([b] + rest)[1..] == rest;
  }

  /** '<' outside a frame opens one with an empty buffer. */
  lemma {:induction false} StartOpensFrame(st: State, rest: seq<byte>)
    requires Idle(st)
    ensures RecvSerial(st, [START_BYTE] + rest) == Step(State(true, "", false), rest, "")
  {
    assert ([START_BYTE] + rest)[1..] == rest;
  }

  /** Inside a frame '<' is ordinary data. */
  lemma {:induction false} StartInsideIsData(st: State, rest: seq<byte>)
    requires st.dataStarted && !st.messageComplete
    ensures RecvSerial(st, [START_BYTE] + rest) == Step(st.(dataBuf := st.dataBuf + START_MARKER), rest, "")
  {
    assert ([START_BYTE] + rest)[1..] == rest;
  }

  /** Inside a frame any byte but '>' adds its decoded character to the buffer. */
  lemma {:induction false} DataByteAppended(st: State, b: byte, rest: seq<byte>)
    requires st.dataStarted && !st.messageComplete && b != END_BYTE
    ensures RecvSerial(st, [b] + rest) == Step(st.(dataBuf := st.dataBuf + [DecodeSingle(b)]), rest, "")
  {
    assert ([b] + rest)[1..] == rest;
  }

  /** '>' inside a frame closes it and hands out the buffer on that same call. */
  lemma {:induction false} EndYieldsBuffer(st: State, rest: seq<byte>)
    requires st.dataStarted && !st.messageComplete
    ensures RecvSerial(st, [END_BYTE] + rest) == Step(State(false, st.dataBuf, false), rest, st.dataBuf)
  {
    assert ([END_BYTE] + rest)[1..] == rest;
  }

  /** Running over a + b is running over a, then over b from where a left off. */
  lemma {:induction false} DriveAppend(st: State, a: seq<byte>, b: seq<byte>)
    requires !st.messageComplete
    ensures var t := Drive(st, a); var u := Drive(t.state, b);
      Drive(st, a + b) == Trace(u.state, t.msgs + u.msgs)
    decreases a
  {
    if a == [] {
      assert a + b == b;
    } else {
      var r := RecvSerial(st, a);
      assert (a + b)[1..] == a[1..] + b;
      assert RecvSerial(st, a + b) == Step(r.state, a[1..] + b, r.msg);
      DriveAppend(r.state, a[1..], b);
    }
  }

  /** Bytes without '<' seen outside a frame leave the fields as they were. */
  lemma {:induction false} NoiseIgnored(st: State, noise: seq<byte>)
    requires Idle(st) && START_BYTE !in noise
    ensures Drive(st, noise) == Trace(st, Blank(|noise|))
  {
    if noise != [] {
      NoiseByteDropped(st, noise[0], noise[1..]);
      assert [noise[0]] + noise[1..] == noise;
      NoiseIgnored(st, noise[1..]);
      BlankAppend(1, |noise| - 1);
    }
  }

  /**
   * Noise before the first '<' is dropped and does not affect what follows:
   * the calls it costs return "", and the rest of the input is parsed as if
   * the noise had never arrived.
   */
  lemma {:induction false} NoiseThenInput(st: State, noise: seq<byte>, rest: seq<byte>)
    requires Idle(st) && START_BYTE !in noise
    ensures var t := Drive(st, rest);
      Drive(st, noise + rest) == Trace(t.state, Blank(|noise|) + t.msgs)
  {
    NoiseIgnored(st, noise);
    DriveAppend(st, noise, rest);
  }

  /** Payload bytes without '>' accumulate in the buffer, each call returning "". */
  lemma {:induction false} PayloadAccumulates(st: State, p: seq<byte>)
    requires st.dataStarted && !st.messageComplete && END_BYTE !in p
    ensures Drive(st, p) == Trace(st.(dataBuf := st.dataBuf + DecodeEach(p)), Blank(|p|))
    decreases p
  {
    if p != [] {
      var next := st.(dataBuf := st.dataBuf + [DecodeSingle(p[0])]);
      DataByteAppended(st, p[0], p[1..]);
      assert [p[0]] + p[1..] == p;
      PayloadAccumulates(next, p[1..]);
      assert DecodeEach(p) == [DecodeSingle(p[0])] + DecodeEach(p[1..]);
      assert next.dataBuf + DecodeEach(p[1..]) == st.dataBuf + DecodeEach(p);
      BlankAppend(1, |p| - 1);
    }
  }

  /** A single call, seen as a run over one byte. */
  lemma {:induction false} DriveOne(st: State, b: byte)
    requires !st.messageComplete
    ensures var r := RecvSerial(st, [b]); Drive(st, [b]) == Trace(r.state, [r.msg])
  {
  }

  /** Noise, then '<': the frame is open with an empty buffer. */
  lemma {:induction false} OpenAfterNoise(st: State, noise: seq<byte>)
    requires Idle(st) && START_BYTE !in noise
    ensures Drive(st, noise + [START_BYTE]) == Trace(State(true, "", false), Blank(|noise| + 1))
  {
    NoiseIgnored(st, noise);
    assert Drive(st, [START_BYTE]) == Trace(State(true, "", false), Blank(1)) by {
      DriveOne(st, START_BYTE);
      StartOpensFrame(st, []);
      assert [START_BYTE] + [] == [START_BYTE];
      assert [""] == Blank(1);
    }
    DriveAppend(st, noise, [START_BYTE]);
    BlankAppend(|noise|, 1);
  }

  /** Noise, then '<' and payload bytes: the frame is open and holds the decoded payload. */
  lemma {:induction false} OpenFrame(st: State, noise: seq<byte>, p: seq<byte>)
    requires Idle(st) && START_BYTE !in noise && END_BYTE !in p
    ensures Drive(st, noise + [START_BYTE] + p) ==
      Trace(State(true, DecodeEach(p), false), Blank(|noise| + 1 + |p|))
  {
    var openState := State(true, "", false);
    OpenAfterNoise(st, noise);
    PayloadAccumulates(openState, p);
    assert openState.dataBuf + DecodeEach(p) == DecodeEach(p);
    DriveAppend(st, noise + [START_BYTE], p);
    BlankAppend(|noise| + 1, |p|);
  }

  /**
   * Round trip: feeding the bytes sendSerial writes for a payload free of
   * '>' to a parser between frames, every call returns "" until the last,
   * which returns what the receiver decodes of the payload; the parser ends
   * between frames again.
   */
  lemma {:induction false} RoundTrip(st: State, payload: string)
    requires Idle(st) && '>' !in payload
    ensures Drive(st, Wire(payload)) ==
      Trace(State(false, Received(payload), false),
            Blank(|Encode(payload)| + 1) + [Received(payload)])
  {
    var p := Encode(payload);
    WireLayout(payload);
    PayloadKeepsFrameOpen(payload);
    OpenFrame(st, [], p);
    assert [] + [START_BYTE] + p == [START_BYTE] + p;
    DriveAppend(st, [START_BYTE] + p, [END_BYTE]);
    EndYieldsBuffer(State(true, DecodeEach(p), false), []);
  }

  /**
   * For ASCII payloads free of '>' the round trip is exact: |payload| + 1
   * calls return "" and the final call returns the payload itself.
   */
  lemma {:induction false} RoundTripAscii(st: State, payload: string)
    requires Idle(st) && '>' !in payload && IsAscii(payload)
    ensures |Wire(payload)| == |payload| + 2
    ensures Drive(st, Wire(payload)) ==
      Trace(State(false, payload, false), Blank(|payload| + 1) + [payload])
  {
    AsciiRoundTrip(payload);
    WireLayout(payload);
    RoundTrip(st, payload);
  }

  /**
   * An empty frame "<>" completes, but the call that completes it returns "",
   * the same as a call with nothing pending: it cannot be told apart from
   * "no message yet".
   */
  lemma {:induction false} EmptyFrameLooksLikeNothing(st: State)
    requires Idle(st)
    ensures Drive(st, Wire("")) == Trace(State(false, "", false), Blank(2))
    ensures Drive(st, Wire("")).msgs[1] == RecvSerial(st, []).msg
  {
    RoundTrip(st, "");
    assert Blank(1) + [""] == Blank(2);
  }
}
