/**
 * The serial port as the framing code uses it: the bytes the peer has sent
 * that are not read yet, and everything written so far. Opening and
 * configuring the device is not modelled; a Port stands for one already open.
 */
module SerialPort {
  import opened Utf8

  class Port {
    /** Bytes received from the peer and not read yet, oldest first. */
    var pending: seq<byte>
    /** Every byte written to the port, oldest first. */
    var written: seq<byte>

    /** A freshly opened port whose peer will send `incoming`. */
    constructor (incoming: seq<byte>)
      ensures pending == incoming && written == []
    {
      pending := incoming;
      written := [];
    }

    /** inWaiting(): how many bytes can be read without blocking. */
    method InWaiting() returns (n: nat)
      ensures n == |pending|
    {
      n := |pending|;
    }

    /** read() of one byte with a zero timeout: the next byte, or nothing. */
    method Read() returns (data: seq<byte>)
      modifies this`pending
      ensures |data| == if old(pending) == [] then 0 else 1
      ensures old(pending) == data + pending
    {
      if pending == [] {
        data := [];
      } else {
        data := pending[..1];
        pending := pending[1..];
      }
    }

    /** write(): the bytes go out after everything written before. */
    method Write(data: seq<byte>)
      modifies this`written
      ensures written == old(written) + data
    {
      written := written + data;
    }
  }
}
