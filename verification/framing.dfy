/**
 * The marker-delimited packet: "<" + payload + ">", written UTF-8 encoded.
 * The payload length is implicit, so a payload cannot carry a '>' of its own.
 */
module Framing {
  import opened Utf8

  const START_MARKER: string := "<"
  const END_MARKER: string := ">"

  /** The markers as they appear on the wire. */
  const START_BYTE: byte := 0x3C
  const END_BYTE: byte := 0x3E

  /** The packet sendSerial builds around a message. */
  function Frame(payload: string): string {
    START_MARKER + payload + END_MARKER
  }

  /** The bytes sendSerial writes for a message. */
  function Wire(payload: string): seq<byte> {
    Encode(Frame(payload))
  }

  /** Several packets written one after the other. */
  function Wires(payloads: seq<string>): seq<byte> {
    if payloads == [] then [] else Wire(payloads[0]) + Wires(payloads[1..])
  }

  /**
   * On the wire a packet is the start byte, the payload's own UTF-8 bytes
   * and the end byte; markers are ASCII, so each is a single byte.
   */
  lemma {:induction false} WireLayout(payload: string)
    ensures Wire(payload) == [START_BYTE] + Encode(payload) + [END_BYTE]
    ensures |Wire(payload)| == |Encode(payload)| + 2
  {
    EncodeAppend(START_MARKER, payload);
    EncodeAppend(START_MARKER + payload, END_MARKER);
  }

  /**
   * A payload free of '>' puts no end byte on the wire before the packet's
   * own end marker, so the receiver cannot close the frame early.
   */
  lemma {:induction false} PayloadKeepsFrameOpen(payload: string)
    requires '>' !in payload
    ensures END_BYTE !in Encode(payload)
  {
    EncodeAvoids(payload, '>');
  }
}
