# CommunicatorCommon serial framing, in Dafny

This project models the serial side of CommunicatorCommon. A host program
uses it to exchange text messages with a device, such as an Arduino, over a
serial line:

- **Framing.** `sendSerial` wraps a message in the markers `<` and `>` and
  writes it UTF-8 encoded.
- **Receiving.** `recvSerial` reads at most one byte per call and decodes it
  on its own, with invalid bytes replaced by U+FFFD. It drives three fields:
  - `dataStarted`: a frame is open.
  - `dataBuf`: the text received so far.
  - `messageComplete`: a frame has closed and its text has not been handed
    out yet.

  The call that reads the end marker returns the buffered text. Every other
  call returns `""`.
- **Handshake.** On setup, `waitForConnection` calls `recvSerial` until the
  device announces that it is ready:
  - Auditory waits for a message that contains the readiness token.
  - SerialSpec stops at the first non-empty message.
- **Communicator** extends Auditory with `sendMsg` and `recieveMsg`.
  `recieveMsg` polls until a message arrives.

Modules:

- `Utf8`: the byte type, UTF-8 encoding (RFC 3629), and the byte-at-a-time
  decoding with replacement.
- `Framing`: the markers and the bytes of a packet.
- `Parser`: the receive state machine as pure functions.
  - `RecvSerial` is one call.
  - `Drive` is one call per pending byte.
  - Lemmas cover each branch, noise, accumulation and the round trip.
- `SerialPort`: the port as a class.
  - `pending` holds the bytes the device has sent and that are not read yet.
  - `written` holds everything written so far.
- `Receive`: calling `recvSerial` until a message arrives, as `recieveMsg`
  does, and as SerialSpec's handshake does when its token is non-empty.
- `Auditory`, `SerialSpec` and `Communicator`: the source's classes, with
  fields that their methods update in place.
  - Each method is proved to compute the matching specification function:
    `Parser.RecvSerial`, `Auditory.AwaitToken`, `SerialSpec.AwaitMessage`
    or `Receive.NextMessage`.
  - The properties of the protocol are lemmas about those functions.

Behaviour of the code worth knowing:

- **Only ASCII round-trips.** Each received byte is decoded on its own
  with `errors="replace"`.
  - ASCII payloads come back exactly (`Parser.RoundTripAscii`).
  - Any other character arrives as one U+FFFD per byte of its encoding
    (`Utf8.NonAsciiIsReplaced`).
- **An empty token reads nothing.** `"".find("")` is 0 and
  `"".startswith("")` holds, so both handshakes return before reading
  anything.
- **SerialSpec's handshake ignores the token once a message arrives.** The
  loop breaks on any non-empty message, so the token is never compared
  with what arrives (`SerialSpec.AcceptsAnyMessage`).
- **An empty message is invisible.** A frame with an empty payload is
  completed, but the call that completes it returns `""`. It cannot be
  told apart from "no message yet", and `recieveMsg` skips it
  (`Receive.EmptyFrameSkipped`).

The source's endless polling loops are modelled over a finite input. The
port's `pending` sequence is every byte that will ever arrive. A loop that
would poll an empty port for ever stops in the model:

- `WaitForConnection` returns `false`.
- `RecieveMsg` returns `None`.

When the source's loop would return, the model returns `true` or `Some(msg)`.

## Model

| member | source | states |
|---|---|---|
| Utf8.EncodeChar | CommunicatorCommon/src/Auditory.py:76-78 | One character encodes to 1, 2, 3 or 4 bytes, exactly when its code point is below 0x80, 0x800, 0x10000 or larger. A one-byte encoding is the code point itself. A longer one starts with a lead byte of the class for its length, continues with bytes 10xxxxxx, and its payload bits, read high to low, are the code point. |
| Utf8.Encode | CommunicatorCommon/src/Auditory.py:76-78 | Encoding never shortens a string, and only the empty string encodes to no bytes. |
| Utf8.DecodeSingle | CommunicatorCommon/src/Auditory.py:89-91 | A lone byte below 0x80 decodes to the character with that code. Any other lone byte decodes to U+FFFD. |
| Utf8.DecodeEach | CommunicatorCommon/src/Auditory.py:89-91 | Decoding byte by byte gives one character per byte. |
| Utf8.AsciiRoundTrip | CommunicatorCommon/src/Auditory.py:76-91 | ASCII text encodes to one byte per character and decodes back to itself. |
| Utf8.NonAsciiIsReplaced | CommunicatorCommon/src/Auditory.py:89-91 | A non-ASCII character arrives as one U+FFFD per byte of its encoding, never as itself. |
| Utf8.EncodeAvoids | CommunicatorCommon/src/Auditory.py:76-78 | An ASCII character that is absent from a text has its byte absent from the text's encoding. |
| Framing.WireLayout | CommunicatorCommon/src/Auditory.py:72-78 | A packet on the wire is 0x3C, the payload's UTF-8 bytes, then 0x3E. It is exactly two bytes longer than the encoded payload. |
| Framing.PayloadKeepsFrameOpen | CommunicatorCommon/src/Auditory.py:93-98 | A payload without '>' puts no 0x3E byte on the wire, so nothing in the payload closes the frame early. |
| Parser.RecvSerial | CommunicatorCommon/src/Auditory.py:88-107 | After a call, messageComplete is always false. One byte is consumed exactly when bytes are pending and messageComplete was false. Non-empty text returned is the buffer. From a state between calls, text comes out only when 0x3E closes an open frame. |
| Parser.Drive | CommunicatorCommon/src/Auditory.py:80-107 | Between calls, each call consumes one byte, so there is one return value per pending byte. messageComplete stays false. |
| Parser.NothingPending | CommunicatorCommon/src/Auditory.py:88-107 | With nothing pending, a call changes no field and returns "". |
| Parser.NoiseByteDropped | CommunicatorCommon/src/Auditory.py:93-101 | Outside a frame, a byte other than '<' is consumed and leaves every field unchanged. |
| Parser.StartOpensFrame | CommunicatorCommon/src/Auditory.py:99-101 | Outside a frame, '<' opens a frame with an empty buffer. |
| Parser.StartInsideIsData | CommunicatorCommon/src/Auditory.py:93-95 | Inside a frame, '<' is appended to the buffer like any other data. |
| Parser.DataByteAppended | CommunicatorCommon/src/Auditory.py:93-95 | Inside a frame, a byte other than '>' appends its decoded character to the buffer and returns "". |
| Parser.EndYieldsBuffer | CommunicatorCommon/src/Auditory.py:96-105 | Inside a frame, '>' closes the frame, and the same call returns the buffer with messageComplete false again. |
| Parser.DriveAppend | CommunicatorCommon/src/Auditory.py:80-107 | Running over a + b is running over a, then running over b from the state a left. |
| Parser.NoiseIgnored | CommunicatorCommon/src/Auditory.py:99-101 | Outside a frame, bytes without '<' leave the fields as they were, and every call returns "". |
| Parser.NoiseThenInput | CommunicatorCommon/src/Auditory.py:93-101 | Noise before the first '<' does not change how the rest is parsed. It only adds calls that return "". |
| Parser.PayloadAccumulates | CommunicatorCommon/src/Auditory.py:93-95 | Inside a frame, bytes without '>' append their decoded characters to the buffer, and every call returns "". |
| Parser.OpenAfterNoise | CommunicatorCommon/src/Auditory.py:93-101 | Noise followed by '<' leaves an open frame with an empty buffer. |
| Parser.OpenFrame | CommunicatorCommon/src/Auditory.py:93-101 | Noise, then '<', then payload bytes without '>' leaves an open frame that holds the decoded payload. |
| Parser.RoundTrip | CommunicatorCommon/src/Auditory.py:66-107 | Feeding the bytes sent for a payload without '>' to an idle parser: every call returns "" except the last, which returns the receiver's decoding of the payload. The parser ends idle. |
| Parser.RoundTripAscii | CommunicatorCommon/src/Auditory.py:66-107 | For an ASCII payload without '>', the packet is two bytes longer than the payload, and the last call returns exactly the payload. |
| Parser.EmptyFrameLooksLikeNothing | CommunicatorCommon/src/Auditory.py:103-107 | The packet "<>" completes, but its final call returns "", the same as a call with nothing pending. |
| SerialPort.Port.constructor | CommunicatorCommon/src/Auditory.py:59-61 | A freshly opened port has the device's bytes pending and nothing written. |
| SerialPort.Port.InWaiting | CommunicatorCommon/src/Auditory.py:88 | inWaiting() is the number of pending bytes. |
| SerialPort.Port.Read | CommunicatorCommon/src/Auditory.py:89 | read() takes the first pending byte, or nothing when none is pending. |
| SerialPort.Port.Write | CommunicatorCommon/src/Auditory.py:76-78 | write() appends its bytes to everything written before. |
| Auditory.Find | CommunicatorCommon/src/Auditory.py:114 | str.find: the result is -1 exactly when the needle occurs nowhere. Otherwise the needle occurs at that index and at no earlier one. |
| Auditory.AwaitToken | CommunicatorCommon/src/Auditory.py:109-117 | The wait reports connected exactly when its last message contains the token. Unconnected, no byte is left. Bytes are only consumed from the front. |
| Auditory.EmptyTokenReadsNothing | CommunicatorCommon/src/Auditory.py:113-115 | With an empty token the wait ends connected at once, having read nothing. |
| Auditory.SkipSilent | CommunicatorCommon/src/Auditory.py:113-115 | Input on which every call returns "" does not end the wait. The wait continues from the state after that input. |
| Auditory.AwaitThroughFrame | CommunicatorCommon/src/Auditory.py:113-115 | A packet's text ends the wait, with the later bytes untouched, exactly when it contains the token. Otherwise the wait continues with that text as the last message. |
| Auditory.ReadyAfterUnrelatedFrames | CommunicatorCommon/src/Auditory.py:113-117 | Packets whose text lacks the token are consumed. The first packet whose text contains the token ends the wait, connected, with every later byte still pending. |
| Auditory.NoFrameNoConnection | CommunicatorCommon/src/Auditory.py:113-115 | Input without '<' never completes the handshake with a non-empty token. Every byte is read and the wait ends unconnected. |
| Auditory.AwaitMatchesDrive | CommunicatorCommon/src/Auditory.py:113-115 | Holds for any input. Take the bytes the wait consumed and call recvSerial once per byte: the run ends in the wait's final state. If the wait connected, its last call returned the wait's final message and no earlier call returned text containing the token. If it did not connect, no call returned text containing the token. |
| Auditory.ReadyAfterNoise | CommunicatorCommon/src/Auditory.py:113-117 | Boot noise without '<' is read and dropped. The ready packet that follows ends the wait, connected, with every later byte still pending. |
| Auditory.Auditory.constructor | CommunicatorCommon/src/Auditory.py:22-41 | Sets the fields to their initial values and keeps the token. It then runs the handshake on the port, leaving the fields and the pending bytes as AwaitToken says. Nothing is written. |
| Auditory.Auditory.SetupSerial | CommunicatorCommon/src/Auditory.py:52-64 | Keeps the port, then waits for the token. Afterwards the fields and pending bytes are those of AwaitToken. |
| Auditory.Auditory.SendSerial | CommunicatorCommon/src/Auditory.py:66-78 | Appends exactly the packet's bytes to what the port has written. |
| Auditory.Auditory.RecvSerial | CommunicatorCommon/src/Auditory.py:80-107 | The new fields, the bytes left on the port and the returned text are those of Parser.RecvSerial. |
| Auditory.Auditory.WaitForConnection | CommunicatorCommon/src/Auditory.py:109-117 | The loop ends in the state AwaitToken gives, reporting whether the token was seen. |
| Receive.NextMessage | CommunicatorCommon/Communicator.py:31-40 | A message received is non-empty and equal to the buffer. From a state between calls it leaves the parser outside a frame. No message means no byte is left. Bytes are only consumed from the front. |
| Receive.MessageAfterBlanks | CommunicatorCommon/Communicator.py:37-40 | A receive that consumes k bytes matches k recvSerial calls: k - 1 of them return "" and the last returns the message. |
| Receive.NoMessageAllBlank | CommunicatorCommon/Communicator.py:37-40 | When no message comes, every call over the whole input returns "". |
| Receive.SkipSilent | CommunicatorCommon/Communicator.py:37-40 | Input on which every call returns "" is consumed without ending the receive. |
| Receive.ReceivesFrame | CommunicatorCommon/Communicator.py:23-40 | After noise without '<', a packet with a non-empty payload without '>' is received as the decoded payload, with later bytes pending. An ASCII payload is received unchanged. |
| Receive.ReceivesInOrder | CommunicatorCommon/Communicator.py:31-40 | Two packets sent back to back come out of two receives, in order. |
| Receive.EmptyFrameSkipped | CommunicatorCommon/Communicator.py:37-40 | An empty packet is consumed and never returned. |
| Communicator.Communicator.constructor | CommunicatorCommon/Communicator.py:18-21 | Builds a fresh Auditory on the port, which runs the handshake. |
| Communicator.Communicator.SendMsg | CommunicatorCommon/Communicator.py:23-29 | Appends exactly the packet for the message to what the port has written. |
| Communicator.Communicator.RecieveMsg | CommunicatorCommon/Communicator.py:31-40 | The result, the fields and the bytes left are those of Receive.NextMessage. |
| SerialSpec.AwaitMessage | CommunicatorCommon/src/SerialSpec.py:91-100 | Connected means the last message starts with the token or is non-empty. Unconnected means no byte is left and the last message does not start with the token. |
| SerialSpec.EmptyTokenReturnsAtOnce | CommunicatorCommon/src/SerialSpec.py:95-96 | With an empty token the handshake ends connected before reading anything. |
| SerialSpec.HandshakeIsFirstMessage | CommunicatorCommon/src/SerialSpec.py:95-100 | With a non-empty token, the handshake ends exactly where recieveMsg would. It is connected exactly when a message arrives, and that message is its last one. |
| SerialSpec.AcceptsAnyMessage | CommunicatorCommon/src/SerialSpec.py:95-100 | Any packet with a non-empty payload without '>' completes the handshake, whatever the token. |
| SerialSpec.SerialSpec.constructor | CommunicatorCommon/src/SerialSpec.py:14-28 | Sets the fields to their initial values with no port yet. |
| SerialSpec.SerialSpec.SetupSerial | CommunicatorCommon/src/SerialSpec.py:30-46 | Keeps the port, then runs the handshake, leaving the fields and pending bytes as AwaitMessage says. |
| SerialSpec.SerialSpec.SendSerial | CommunicatorCommon/src/SerialSpec.py:48-60 | Appends exactly the packet's bytes to what the port has written. |
| SerialSpec.SerialSpec.RecvSerial | CommunicatorCommon/src/SerialSpec.py:62-89 | The new fields, the bytes left on the port and the returned text are those of Parser.RecvSerial. |
| SerialSpec.SerialSpec.WaitForConnection | CommunicatorCommon/src/SerialSpec.py:91-100 | The loop, including its break, ends in the state AwaitMessage gives, reporting whether it ended before the input ran out. |

## Left out

- Logging is not modelled. Its only effect is on a log file.
- Opening the device is not modelled. This covers `Serial(port=..., baudrate=..., timeout=0, rtscts=True)`, the baud rate and port name arguments, and RTS/CTS flow control. A `Port` stands for an already opened port and is passed to the constructors and to `SetupSerial` instead.
- `parseFile` is not modelled as a member of its own. It only forwards to `setupSerial`, so the constructor calls `SetupSerial` directly.
- The `readyVerification = None` default is not modelled, because both handshakes would raise on `find`/`startswith` with `None`. The token is always a string. `Communicator()` passes no token and so takes that default; the model's constructor takes the token as an argument instead.
- Communicator inherits from Auditory in the source. The model holds an `Auditory` instead, and calls its methods.
- The pyserial port is reduced to `inWaiting`, `read` of one byte and `write`. Timing, partial writes and concurrent access are not modelled.
- The port never fails in the model. pyserial's `inWaiting`, `read` and `write` can raise `SerialException`, for example when the device is unplugged, and nothing here models that error path.
- Using a SerialSpec before `setupSerial` is not modelled. `SerialSpec()` leaves `serialPort` as `None` (SerialSpec.py:28), so calling `sendSerial`, `recvSerial` or `waitForConnection` first raises `AttributeError` (SerialSpec.py:58, 70). SerialSpec.SerialSpec.SendSerial, SerialSpec.SerialSpec.RecvSerial and SerialSpec.SerialSpec.WaitForConnection require a port instead of modelling that error.
- Python strings containing lone surrogates are not modelled. A Dafny `char` is a Unicode scalar value, and encoding such a string raises in the source.
- Auditory.Auditory.WaitForConnection: when no byte is left, the source keeps polling for ever. The model returns `false` instead of blocking. The same holds for SerialSpec.SerialSpec.WaitForConnection. For Communicator.Communicator.RecieveMsg, the model returns `None`.
- SerialCommunicator.py, I2CCommunicator.py, I2CSpec.py, CommunicatorEvent.py, the exception classes and the tree under src/CommunicatorCommon are not part of this model.
