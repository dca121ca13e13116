/**
 * Text <-> bytes as the serial link sees it: outgoing packets are encoded
 * as UTF-8 (RFC 3629) in one piece, incoming bytes are decoded one byte at a
 * time with errors="replace", so a lone byte of 0x80 or more becomes U+FFFD.
 */
module Utf8 {

  newtype byte = b: int | 0 <= b < 0x100

  /** U+FFFD, what errors="replace" substitutes for an undecodable byte. */
  const REPLACEMENT: char := '\U{FFFD}'

  predicate IsAscii(s: string) {
    forall i :: 0 <= i < |s| ==> s[i] as int < 0x80
  }

  /** UTF-8 encoding of one Unicode scalar value (RFC 3629, section 3). */
  function EncodeChar(c: char): (r: seq<byte>)
    ensures 1 <= |r| <= 4
    ensures |r| == 1 <==> c as int < 0x80
    ensures c as int < 0x80 ==> r[0] as int == c as int
    // a multi-byte encoding has a lead byte of the right class and
    // continuation bytes 10xxxxxx, so none of its bytes is ASCII
    ensures |r| == 2 ==> 0xC0 <= r[0] < 0xE0
    ensures |r| == 3 ==> 0xE0 <= r[0] < 0xF0
    ensures |r| == 4 ==> 0xF0 <= r[0] < 0xF8
    ensures forall i :: 1 <= i < |r| ==> 0x80 <= r[i] < 0xC0
    // the length is fixed by the code point's range ...
    ensures |r| == 2 <==> 0x80 <= c as int < 0x800
    ensures |r| == 3 <==> 0x800 <= c as int < 0x1_0000
    ensures |r| == 4 <==> 0x1_0000 <= c as int
    // ... and the payload bits of the bytes, read high to low, are the code point
    ensures |r| == 2 ==> c as int == (r[0] as int - 0xC0) * 0x40 + (r[1] as int - 0x80)
    ensures |r| == 3 ==> (c as int ==
      ((r[0] as int - 0xE0) * 0x40 + (r[1] as int - 0x80)) * 0x40 + (r[2] as int - 0x80))
    ensures |r| == 4 ==> (c as int ==
      (((r[0] as int - 0xF0) * 0x40 + (r[1] as int - 0x80)) * 0x40 + (r[2] as int - 0x80)) * 0x40
        + (r[3] as int - 0x80))
  {
    // the code point is cut into 6-bit groups from the low end; each
    // continuation byte carries one, the lead byte what is left
    var cp := c as int;
    if cp < 0x80 then
      [cp as byte]
    else
      var low, q1 := cp % 0x40, cp / 0x40;
      if cp < 0x800 then
        [(0xC0 + q1) as byte, (0x80 + low) as byte]
      else
        var mid, q2 := q1 % 0x40, q1 / 0x40;
        if cp < 0x1_0000 then
          [(0xE0 + q2) as byte, (0x80 + mid) as byte, (0x80 + low) as byte]
        else
          var high, q3 := q2 % 0x40, q2 / 0x40;
          [(0xF0 + q3) as byte, (0x80 + high) as byte, (0x80 + mid) as byte, (0x80 + low) as byte]
  }

  /** str.encode("utf-8"): the characters' encodings one after the other. */
  function Encode(s: string): (r: seq<byte>)
    ensures |r| >= |s|
    ensures r == [] <==> s == []
  {
    if s == [] then [] else EncodeChar(s[0]) + Encode(s[1..])
  }

  /**
   * bytes.decode("utf-8", errors="replace") applied to a single byte: an
   * ASCII byte is the character it encodes, any other byte on its own is
   * not valid UTF-8.
   */
  function DecodeSingle(b: byte): (c: char)
    ensures b < 0x80 <==> c as int < 0x80
    ensures b < 0x80 ==> c as int == b as int
    ensures b >= 0x80 ==> c == REPLACEMENT
  {
    if b < 0x80 then (b as int) as char else REPLACEMENT
  }

  /** The text built by decoding each byte of `bs` on its own, in order. */
  function DecodeEach(bs: seq<byte>): (s: string)
    ensures |s| == |bs|
  {
    if bs == [] then [] else [DecodeSingle(bs[0])] + DecodeEach(bs[1..])
  }

  lemma {:induction false} EncodeAppend(a: string, b: string)
    ensures Encode(a + b) == Encode(a) + Encode(b)
  {
    if a == [] {
      assert a + b == b;
    } else {
      assert (a + b)[1..] == a[1..] + b;
      EncodeAppend(a[1..], b);
    }
  }

  lemma {:induction false} DecodeEachAppend(a: seq<byte>, b: seq<byte>)
    ensures DecodeEach(a + b) == DecodeEach(a) + DecodeEach(b)
  {
    if a == [] {
      assert a + b == b;
    } else {
      assert (a + b)[1..] == a[1..] + b;
      DecodeEachAppend(a[1..], b);
    }
  }

  /** ASCII text survives being encoded and decoded byte by byte. */
  lemma {:induction false} AsciiRoundTrip(s: string)
    requires IsAscii(s)
    ensures |Encode(s)| == |s|
    ensures DecodeEach(Encode(s)) == s
  {
    if s != [] {
      assert IsAscii(s[1..]) by {
        forall i | 0 <= i < |s[1..]| ensures s[1..][i] as int < 0x80 {
          assert s[1..][i] == s[i + 1];
        }
      }
      AsciiRoundTrip(s[1..]);
      assert Encode(s) == EncodeChar(s[0]) + Encode(s[1..]);
      assert s[0] as int < 0x80;
      assert DecodeEach(Encode(s)) == [DecodeSingle(Encode(s)[0])] + DecodeEach(Encode(s)[1..]);
      assert Encode(s)[1..] == Encode(s[1..]);
    }
  }

  /**
   * A character beyond ASCII reaches the receiver as one U+FFFD per byte of
   * its encoding: the byte-at-a-time decoder never reassembles it.
   */
  lemma {:induction false} NonAsciiIsReplaced(c: char)
    requires c as int >= 0x80
    ensures var e := EncodeChar(c);
      DecodeEach(e) == seq(|e|, _ => REPLACEMENT) && DecodeEach(e) != [c]
  {
    var e := EncodeChar(c);
    assert e[0] >= 0x80;
    assert DecodeEach(e)[0] == REPLACEMENT;
    forall i | 0 <= i < |e| ensures DecodeEach(e)[i] == REPLACEMENT {
      DecodeEachAt(e, i);
    }
  }

  lemma {:induction false} DecodeEachAt(bs: seq<byte>, i: nat)
    requires i < |bs|
    ensures DecodeEach(bs)[i] == DecodeSingle(bs[i])
  {
    if i > 0 {
      DecodeEachAt(bs[1..], i - 1);
    }
  }

  /**
   * An ASCII character absent from the text has its byte absent from the
   * encoding: every byte of a multi-byte encoding is 0x80 or more.
   */
  lemma {:induction false} EncodeAvoids(s: string, c: char)
    requires c as int < 0x80 && c !in s
    ensures (c as int) as byte !in Encode(s)
  {
    if s != [] {
      EncodeAvoids(s[1..], c);
      var e := EncodeChar(s[0]);
      assert s[0] != c;
      if |e| > 1 {
        assert forall i :: 0 <= i < |e| ==> e[i] >= 0x80;
      }
      assert (c as int) as byte !in e;
    }
  }
}
