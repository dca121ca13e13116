/**
 * Communicator: an Auditory with a message-level interface. sendMsg frames
 * and writes one message; recieveMsg keeps calling recvSerial until a call
 * returns non-empty text and hands that text back.
 */
module Communicator {
  import opened Framing
  import opened Parser
  import opened Receive
  import opened SerialPort
  import Auditory

  class Communicator {
    /** The Auditory this Communicator extends: its fields and port. */
    const auditory: Auditory.Auditory

    /** Builds the Auditory, which opens the port and waits for the device. */
    constructor (readyVerification: string, port: Port)
      modifies port
      ensures fresh(auditory)
      ensures auditory.readyVerification == readyVerification && auditory.serialPort == port
      ensures var h := Auditory.AwaitToken(INITIAL, old(port.pending), readyVerification, "");
        auditory.Fields() == h.state && port.pending == h.rest
      ensures port.written == old(port.written)
    {
      auditory := new Auditory.Auditory(readyVerification, port);
    }

    /** Sends one message as a packet. */
    method SendMsg(msg: string)
      requires auditory.serialPort != null
      modifies auditory.serialPort`written
      ensures auditory.serialPort.written == old(auditory.serialPort.written) + Wire(msg)
    {
      auditory.SendSerial(msg);
    }

    /** Calls recvSerial until it returns a message, and returns that message. */
    method RecieveMsg() returns (msg: Option<string>)
      requires auditory.serialPort != null
      modifies auditory`dataStarted, auditory`dataBuf, auditory`messageComplete, auditory.serialPort`pending
      ensures var n := NextMessage(old(auditory.Fields()), old(auditory.serialPort.pending));
        msg == n.msg && auditory.Fields() == n.state && auditory.serialPort.pending == n.rest
    {
      while true
        invariant NextMessage(auditory.Fields(), auditory.serialPort.pending) ==
          NextMessage(old(auditory.Fields()), old(auditory.serialPort.pending))
        decreases |auditory.serialPort.pending|, if auditory.messageComplete then 1 else 0
      {
        var waiting := auditory.serialPort.InWaiting();
        if waiting == 0 && !auditory.messageComplete {
          // nothing more will arrive: the source would poll here for ever
          return None;
        }
        var m := auditory.RecvSerial();
        if m != "" {
          return Some(m);
        }
      }
    }
  }
}
