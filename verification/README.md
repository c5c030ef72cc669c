# A verified model of the robot firmware and its libraries

This project models the parts of the repository that keep state across calls, and proves what they promise. It is
written for Dafny 4.11; `dafny verify dfyconfig.toml` verifies all of it.

| files | component |
|---|---|
| Twi, TwoWire | the interrupt-driven I2C master (NBWire): interrupt handler, continuation callbacks, shared buffers |
| I2cDevice | register access over the Wire library: chunked reads and bit fields |
| Http, HttpFormat, HttpHeaders, HttpResponse, HttpClient, StatusLine | the HTTP response reader: status line, header matchers, lazy chunk decoder |
| WebSocket | the WebSocket frame writer and parser |
| Base64, Authorization | the three base 64 encoders and the credentials they carry from client to server |
| MpuMemory, DmpConfig, Fifo | the MPU6050's banked memory, its configuration interpreter, and the FIFO reader |
| Flash, Ota, OtaRequest | staging a sketch in NOR flash, copying it over the running one, and the upload in front |
| Portal, WiFiManager, WiFiScan, HtmlEntities | the portal's life cycle, the list of networks, HTML escaping |
| Motor, MotorTask | the two-task motor controller with its watchdog |
| Quaternion, FixedGravity | rotation and gravity, in reals and in 16-bit integers |
| Bytes, Bits, Multiples, Numerals | what they share |

Where the source changes an object step by step there is a class with its fields, and every method is tied to a function
on values; the lemmas about runs, traces and schedules are about these functions. Interrupts, arrivals, clocks, clients,
networks and the sensor are parameters that range over everything they can do.

## What the model found

The code is modelled as it is. Where it does less than one would expect, the model says exactly when.

- I2C: after a timeout `endTransmission` and `requestFrom` return the result of the transaction before. For the first
  this is right exactly if that was no success, for the second exactly if it was 0; otherwise `requestFrom` announces
  that many bytes, which are in the buffer from before.
- I2Cdev: a register read of more than one chunk starts again at its first register in every chunk. Bytes missing in a
  chunk are not left open: what is read is in its place exactly if every chunk that copies something still begins at a
  multiple of the chunk size or, from the FIFO, if none before it has lost a byte. Counts above 127 are returned as
  negative numbers, 255 as the -1 of a timeout. A timeout of the read inside `writeBits` counts as success.
- HTTP: the two header matchers share a line, so a line that interleaves the prefixes, such as `CTontent-Length: 5`,
  counts as a Content-Length line. A chunk extension with a hexadecimal digit changes the chunk size, except for zeros
  behind the 0 of the last chunk. An informational response is refused because of its blank line, although the comment
  in `responseStatusCode` (libraries/ArduinoHttpClient/src/HttpClient.cpp:409-411) expects to pass over it; a newline in
  place of a version digit is reported as a timeout.
- WebSocket: 65535 octets are announced in the longest form, and a short read moves the mask index too far. A header is
  read as soon as two octets of it are there, and what arrives later is taken for payload. A ping that comes while a
  message is under construction sends that message, with the ping's payload behind it. Data too long for a message of
  at most eight bytes is cut so that the message has eight bytes, however large the buffer is.
- base 64: the room check of `b64_encode` asks for less than it writes unless the input is a multiple of three bytes.
- OTA: the copy erases one page more than it copies. An update of at least the maximum size minus one page loses the
  beginning of its own source, unless that is 0xff.
- FIFO: `GetCurrentFIFOPacket` never returns the 2 that its description announces
  (libraries/MPU6050/src/MPU6050.cpp:2893-2898); an overflow that is recovered from is reported by 1.
- Motor: the web page's stop button sends `P,` and a number, which is not the message `P`; it stops the robot as an
  unknown direction. Any direction with a comma renews the watchdog. The watchdog sees the age of a command modulo 2^32 ms.
- Gravity in integers overflows for two quaternions, both far from unit length.
- Portal: one that is served by `process` ignores its timeout and requests to exit where exits are not allowed, and
  `stopConfigPortal` only asks a blocking one to end.

## Model

| member | source | states |
|---|---|---|
| `Twi.WriteOutcome` | libraries/MPU6050/src/I2Cdev.cpp:1067-1109 | over every legal interrupt trace of a write: the bytes put in TWDR are a prefix of address+W and the queued bytes, the transaction is over exactly when the trace shows an end, and the result is 0 exactly when address and all bytes were acknowledged, 2 or 3 on a refused address or byte, 4 on arbitration loss or bus error; `ptwv` and the callback are settled once; the last command written is a stop condition, but a release of the bus after a lost arbitration, and while it is open neither of the two; `transmitting` is cleared at the end |
| `Twi.WriteTooLong` | libraries/MPU6050/src/I2Cdev.cpp:1083-1098 | a write longer than the buffer ends with result 1, and nothing reaches the bus |
| `Twi.ReadOutcome` | libraries/MPU6050/src/I2Cdev.cpp:1111-1142 | over every legal trace of a read of 1 to 32 bytes: the rx buffer receives exactly the bytes the slave sent, in order; all but the n-th byte are acknowledged; the index stays below n; the count is n exactly when the refused last byte arrived; the last command written is a stop condition, but a release of the bus after a lost arbitration, and while it is open neither of the two |
| `Twi.OwnershipDuringWrite` | libraries/MPU6050/src/I2Cdev.cpp:1016-1024 | during a write `ptwv` is allocated exactly while a continuation is pending, and every allocation is freed once |
| `Twi.OwnershipDuringRead` | libraries/MPU6050/src/I2Cdev.cpp:1016-1024 | the same during a read |
| `Twi.WritesEnd` | libraries/MPU6050/src/I2Cdev.cpp:1175-1211 | n + 2 informative interrupts end every write, and no interrupt is legal after the end |
| `Twi.ReadsEnd` | libraries/MPU6050/src/I2Cdev.cpp:1213-1233 | n + 2 informative interrupts end every read, and no interrupt is legal after the end |
| `Twi.WritesAreSafe` | libraries/MPU6050/src/I2Cdev.cpp:1175-1211 | after no prefix of a legal trace has the interrupt handler left its buffers or followed a null `ptwv` |
| `Twi.ReadsAreSafe` | libraries/MPU6050/src/I2Cdev.cpp:1213-1233 | the same for reads |
| `Twi.WriteStep` | libraries/MPU6050/src/I2Cdev.cpp:1175-1211 | one interrupt keeps the invariant that the driver is in the state the trace so far describes (write) |
| `Twi.ReadStep` | libraries/MPU6050/src/I2Cdev.cpp:1213-1233 | one interrupt keeps the invariant that the driver is in the state the trace so far describes (read) |
| `TwoWire.Driver.Signal` | libraries/MPU6050/src/I2Cdev.cpp:1175-1345 | the interrupt handler on the driver object: handle the status, then run the continuation, as module Twi says |
| `TwoWire.Driver.WriteTo` | libraries/MPU6050/src/I2Cdev.cpp:1100-1109 | `twi_writeTo` on the object is the value-level start of a write |
| `TwoWire.Driver.ReadFrom` | libraries/MPU6050/src/I2Cdev.cpp:1133-1142 | `twi_readFrom` on the object is the value-level start of a read |
| `TwoWire.Driver.Handle` | libraries/MPU6050/src/I2Cdev.cpp:1175-1340 | the switch over the status codes changes the object as module Twi says |
| `TwoWire.Driver.Interrupts` | libraries/MPU6050/src/I2Cdev.cpp:1175-1345 | any fault-free sequence of interrupts takes the object where the run of module Twi goes |
| `TwoWire.Wire.BeginTransmission` | libraries/MPU6050/src/I2Cdev.cpp:1359-1371 | empties the queue, sets the address and opens a transmission; nothing else changes |
| `TwoWire.Wire.Send` | libraries/MPU6050/src/I2Cdev.cpp:1395-1414 | appends a byte to the queue; outside a transmission, or with 32 bytes queued, the byte is dropped |
| `TwoWire.Wire.EndTransmission` | libraries/MPU6050/src/I2Cdev.cpp:1373-1387 | 0 exactly when address and all queued bytes were acknowledged and went out in order, if the transaction was completed; after a timeout the result of the previous transaction is returned, so that 0 stands for success exactly when it was completed or the previous result was not 0; a completed transaction has ended with a stop condition or, after a lost arbitration, a release |
| `TwoWire.Wire.RequestFrom` | libraries/MPU6050/src/I2Cdev.cpp:1430-1446 | a completed request makes exactly the received bytes available and returns their number; after a timeout the result of the previous transaction is returned and announced, over an unchanged buffer, so that the number is right exactly when the request was completed or that result was 0; a completed transaction has ended with a stop condition or, after a lost arbitration, a release |
| `TwoWire.StaleRequest` | libraries/MPU6050/src/I2Cdev.cpp:1373-1446 | a request that times out behind a refused address announces two bytes of which none has been received |
| `TwoWire.Wire.Receive` | libraries/MPU6050/src/I2Cdev.cpp:1416-1428 | the received bytes come out first to last, then 0 |
| `TwoWire.Wire.ReceiveAll` | libraries/MPU6050/src/I2Cdev.cpp:1416-1428 | taking bytes while some are available gives exactly what was received |
| `I2cDevice.ReadBytes` | libraries/MPU6050/src/I2Cdev.cpp:209-315 | the chunked read, for every length and buffer size, with requests answered in full, in part or not at all, and a timeout at any byte: which bytes are copied, and where; a read that is late and short returns -1, any other its count as a signed byte |
| `I2cDevice.CountExact` | libraries/MPU6050/src/I2Cdev.cpp:273-306 | the count is the length exactly when every request was answered in full and copied in time, and the data is then what such a read delivers |
| `I2cDevice.FullRead` | libraries/MPU6050/src/I2Cdev.cpp:273-289 | a read answered in full: which byte of data holds which register; the FIFO gives its first bytes in order |
| `I2cDevice.PrefixExact` | libraries/MPU6050/src/I2Cdev.cpp:273-289 | short reads of registers: what is read is the beginning of what a full read gives, whatever the registers hold, exactly when every chunk that copies something begins in the data at a multiple of the buffer |
| `I2cDevice.FifoPrefixExact` | libraries/MPU6050/src/I2Cdev.cpp:273-289 | short reads of the FIFO: the same, exactly when no byte it has given is lost before a later one is copied |
| `I2cDevice.ShortChunk` | libraries/MPU6050/src/I2Cdev.cpp:273-289 | a read of four registers with one byte missing in its first chunk, which goes wrong, and one with the whole first chunk missing, which does not |
| `I2cDevice.InOrderExact` | libraries/MPU6050/src/I2Cdev.cpp:273-289 | every chunk selects the first register again: a read of registers is right, whatever they hold, exactly when it needs one chunk |
| `I2cDevice.FieldReadsBack` | libraries/MPU6050/src/I2Cdev.cpp:498-517 | what is written to a bit field is read back, cut to the field |
| `I2cDevice.FieldKeepsOthers` | libraries/MPU6050/src/I2Cdev.cpp:498-517 | writing a bit field changes no bit outside it |
| `I2cDevice.FieldsIndependent` | libraries/MPU6050/src/I2Cdev.cpp:498-517 | fields without a common bit do not disturb each other, and may be written in either order |
| `I2cDevice.ReadBits` | libraries/MPU6050/src/I2Cdev.cpp:137-151 | the field of the register; the caller's variable unchanged if no byte came; the field of an unset variable after a timeout |
| `I2cDevice.WriteBits` | libraries/MPU6050/src/I2Cdev.cpp:498-517 | exactly the one register changes, in its field; nothing changes if the read gave no byte or the write was refused; after a timeout of the read its other bits come from an unset variable |
| `I2cDevice.RestSurvivesExact` | libraries/MPU6050/src/I2Cdev.cpp:507-513 | the rest of the register survives a write exactly when the value read agrees with it outside the field |
| `I2cDevice.MaskBits` | libraries/MPU6050/src/I2Cdev.cpp:507-509 | bit i is in the mask exactly for bitStart - length < i <= bitStart |
| `I2cDevice.SetBits` | libraries/MPU6050/src/I2Cdev.cpp:507-513 | every bit of a register after a write to a field: those of the field come from the data, from its lowest bit on, and the others stay |
| `I2cDevice.GetBits` | libraries/MPU6050/src/I2Cdev.cpp:143-150 | every bit of what is read from a field |
| `I2cDevice.FittingReadsBack` | libraries/MPU6050/src/I2Cdev.cpp:498-517 | data is read back as it was written exactly when it is below 2^length |
| `StatusLine.ResponseStatusCode` | libraries/ArduinoHttpClient/src/HttpClient.cpp:395-506 | the loops of the method compute the value-level reader of status lines, on every text |
| `StatusLine.FirstFinal` | libraries/ArduinoHttpClient/src/HttpClient.cpp:405-494 | after any number of informational status lines the answer is the code of the first other one, and it is read to its end |
| `StatusLine.FirstFinalNumber` | libraries/ArduinoHttpClient/src/HttpClient.cpp:405-494 | in numbers, written with decimal digits: codes below 200 but 101 are passed over, and the first other one below 2^31 is returned as that number |
| `StatusLine.CodeExplained` | libraries/ArduinoHttpClient/src/HttpClient.cpp:405-494 | conversely, whenever a code is returned, the text was such a list of status lines and the code is the last one's |
| `StatusLine.BlankLineRefused` | libraries/ArduinoHttpClient/src/HttpClient.cpp:480-488 | an informational response that ends with a blank line, as HTTP sends it, is refused |
| `StatusLine.NewlineExact` | libraries/ArduinoHttpClient/src/HttpClient.cpp:420-444 | a status line ends inside its prefix exactly when a newline stands where the prefix takes any character, behind characters that fit |
| `StatusLine.MisfitExact` | libraries/ArduinoHttpClient/src/HttpClient.cpp:432-445 | a line is refused exactly when a character of its prefix does not fit |
| `StatusLine.TimedOutExact` | libraries/ArduinoHttpClient/src/HttpClient.cpp:406-499 | for every text: a timeout is reported exactly when, behind informational lines only, the text breaks off before the line has ended, or a newline stands where the prefix takes any character |
| `StatusLine.InvalidExact` | libraries/ArduinoHttpClient/src/HttpClient.cpp:406-505 | for every text: an invalid response is reported exactly when, behind informational lines only, a character of a prefix does not fit |
| `StatusLine.LastBranchDead` | libraries/ArduinoHttpClient/src/HttpClient.cpp:480-505 | the end of a line never leads to the last branch |
| `Http.FeedAllConcat` | libraries/ArduinoHttpClient/src/HttpClient.cpp:608-685 | feeding the reader octets can be cut anywhere |
| `Http.SkipSizeLineIsFeed` | libraries/ArduinoHttpClient/src/HttpClient.cpp:608-647 | the size-line loop of `available()` is the octet-wise reader on what it takes |
| `Http.ReadBodyIsFeed` | libraries/ArduinoHttpClient/src/HttpClient.cpp:657-685 | a call of `read()` on the body is the octet-wise reader on what it takes, and it takes something if something has arrived |
| `Http.RunIsFeed` | libraries/ArduinoHttpClient/src/HttpClient.cpp:608-685 | over every schedule of arrivals and calls the client is where the octet-wise reader is after the octets taken so far |
| `Http.TurnsDrain` | libraries/ArduinoHttpClient/src/HttpClient.cpp:657-685 | as many turns as octets have arrived take all of them |
| `HttpFormat.BodyDecodes` | libraries/ArduinoHttpClient/src/HttpClient.cpp:608-685 | decoding inverts the chunked encoding (section 7.1 of RFC 9112) for every list of chunks and every ending without data |
| `HttpFormat.HexRead` | libraries/ArduinoHttpClient/src/HttpClient.cpp:610-632 | a chunk size printed in hexadecimal digits, of either case, is read as that number |
| `HttpFormat.ExtensionHarmless` | libraries/ArduinoHttpClient/src/HttpClient.cpp:610-632 | a chunk extension leaves the size right exactly when it holds no hexadecimal digit, and that of the last chunk exactly when it holds none but 0 |
| `HttpHeaders.MatchingLine` | libraries/ArduinoHttpClient/src/HttpClient.cpp:764-864 | a whole header line takes the two matchers where the line-wise description of both says |
| `HttpHeaders.HeaderBlockRead` | libraries/ArduinoHttpClient/src/HttpClient.cpp:764-864 | the reader reaches the body just behind the blank line; the body is chunked exactly when a Transfer-Encoding: chunked line occurred, and the content length is the last Content-Length value (or -1) exactly when that fits 32 bits, whatever the values before it |
| `HttpHeaders.LinesMeaning` | libraries/ArduinoHttpClient/src/HttpClient.cpp:764-864 | the fold over the lines that the matchers compute is that reference |
| `HttpHeaders.MatchMeaning` | libraries/ArduinoHttpClient/src/HttpClient.cpp:777-818 | on every line that is not interleaved the two matchers find exactly the line's own prefix |
| `HttpHeaders.InterleavedMatches` | libraries/ArduinoHttpClient/src/HttpClient.cpp:777-818 | the matchers complete on a line that begins with neither prefix exactly when the line begins with an interleaving of the two: its characters can be dealt to the prefixes, each getting its own in order, one completed by the last, and the second prefix getting just those the first cannot take |
| `HttpHeaders.InterleavedExact` | libraries/ArduinoHttpClient/src/HttpClient.cpp:777-835 | for every line: the headers it gives are the ones its own text says exactly when it is not interleaved in this sense and its length fits |
| `HttpHeaders.InterleavedNeedsBoth` | libraries/ArduinoHttpClient/src/HttpClient.cpp:777-818 | an interleaved line holds a C and a T |
| `HttpHeaders.InterleavedExample` | libraries/ArduinoHttpClient/src/HttpClient.cpp:777-818 | a line that is no Content-Length line but is taken for one |
| `HttpHeaders.LengthExact` | libraries/ArduinoHttpClient/src/HttpClient.cpp:819-835 | the length read is the decimal value exactly when that fits 32 bits |
| `HttpHeaders.LengthRead` | libraries/ArduinoHttpClient/src/HttpClient.cpp:819-835 | the last `Content-Length: ` line with n in decimal digits makes the content length n, for every n below 2^31 and whatever lines are around it |
| `HttpResponse.DeliveryIsSafe` | libraries/ArduinoHttpClient/src/HttpClient.cpp:608-685 | whatever part of a response has arrived, in whatever pieces, the results are a prefix of what it holds |
| `HttpResponse.DeliveryIsComplete` | libraries/ArduinoHttpClient/src/HttpClient.cpp:608-685 | once all has arrived, enough turns deliver everything |
| `HttpResponse.ChunkedDelivery` | libraries/ArduinoHttpClient/src/HttpClient.cpp:608-685 | header block, chunked body, any split of the arrival: the results are at all times a prefix of the concatenated chunk data and all of it in the end |
| `HttpResponse.PiecesDelivered` | libraries/ArduinoHttpClient/src/HttpClient.cpp:608-685 | the same for bodies as a server writes them, every piece behind its size in hexadecimal digits: the results are at all times a prefix of the pieces put together, and all of it in the end |
| `HttpResponse.PlainDelivery` | libraries/ArduinoHttpClient/src/HttpClient.cpp:657-685 | the same for a body that is not chunked |
| `HttpResponse.InsideAChunk` | libraries/ArduinoHttpClient/src/HttpClient.cpp:634-685 | over every header block with a chunked line, chunked body and schedule: whenever a call returns inside a chunk, the chunk length is positive |
| `HttpClient.HttpClient.Available` | libraries/ArduinoHttpClient/src/HttpClient.cpp:608-654 | the size line is taken as described above, and the count is what can be read at once |
| `HttpClient.HttpClient.Read` | libraries/ArduinoHttpClient/src/HttpClient.cpp:657-685 | `read()` on the object is the value-level read |
| `HttpClient.HttpClient.ReadHeader` | libraries/ArduinoHttpClient/src/HttpClient.cpp:764-864 | `readHeader` on the object is one octet of the header reader; -1 becomes an octet like any other; behind the headers it is a read of the body |
| `HttpClient.HttpClient.Drive` | libraries/ArduinoHttpClient/src/HttpClient.cpp:608-685 | an object driven by a schedule goes where the value-level client goes |
| `Base64.DecodeEncode` | libraries/ArduinoHttpClient/src/b64.cpp:21-71 | an independent decoder (section 4 of RFC 4648) gives back every byte string |
| `Base64.EncodeDecode` | libraries/ArduinoHttpClient/src/b64.cpp:21-71 | every text the decoder accepts is the encoding of what it decodes to |
| `Base64.Injective` | libraries/ArduinoHttpClient/src/b64.cpp:21-71 | different byte strings have different texts |
| `Base64.EncodeConcat` | libraries/ArduinoHttpClient/src/b64.cpp:56-67 | whole groups of three bytes may be encoded on their own |
| `Base64.DictionaryAt` | libraries/ArduinoHttpClient/src/b64.cpp:32-32 | the table holds the letter of every six bits |
| `Base64.TestVectors` | libraries/ArduinoHttpClient/src/b64.cpp:21-71 | the texts of "f", "fo" and "foo" (section 10 of RFC 4648) |
| `Authorization.B64Encode` | libraries/ArduinoHttpClient/src/b64.cpp:21-71 | with the room the check asks for, exactly the text of the input is written in place, and its length returned; without it nothing is written |
| `Authorization.EncodeTriples` | libraries/ArduinoHttpClient/src/b64.cpp:56-62 | the loop writes the texts of the whole chunks one behind the other |
| `Authorization.RoomCheckExact` | libraries/ArduinoHttpClient/src/b64.cpp:25-29 | the room the check asks for is what is written exactly for whole groups of three |
| `Authorization.SendBasicAuth` | libraries/ArduinoHttpClient/src/HttpClient.cpp:207-254 | the loop over three-byte chunks sends the text of user, colon and password |
| `Authorization.Base64Encode` | libraries/ArduinoOTA/src/WiFiOTA.cpp:31-64 | the string loop computes the same text |
| `Authorization.Begin` | libraries/ArduinoOTA/src/WiFiOTA.cpp:76-82 | the value the server expects is made from the board name and its password |
| `Authorization.HeaderArrives` | libraries/ArduinoOTA/src/WiFiOTA.cpp:246-258 | the server takes from the header line exactly the value the client sent |
| `Authorization.AcceptedExact` | libraries/ArduinoOTA/src/WiFiOTA.cpp:251-276 | the header the client sends is the one the server expects exactly when the credentials are the server's |
| `Authorization.PasswordExact` | libraries/ArduinoOTA/src/WiFiOTA.cpp:76-82 | for the user `arduino`, the header the client sends is accepted exactly when the passwords are equal |
| `Authorization.BoardText` | libraries/ArduinoOTA/src/WiFiOTA.cpp:76-82 | what is sent and what is expected, octet by octet: the encoding of arduino, a colon and the password, behind Basic |
| `WebSocket.FrameParses` | libraries/ArduinoHttpClient/src/WebSocketClient.cpp:90-146 | the header of a written frame (section 5.2 of RFC 6455) is parsed back, and the masked payload lies exactly behind it |
| `WebSocket.Example` | libraries/ArduinoHttpClient/src/WebSocketClient.cpp:90-146 | the masked frames for Hello as a text and as a pong, octet by octet (section 5.7 of RFC 6455) |
| `WebSocket.RoundTrip` | libraries/ArduinoHttpClient/src/WebSocketClient.cpp:332-351 | for every payload, key and type, and whatever follows: reading back the frame in parts of any sizes gives the payload, through all three length forms, and the frame is final |
| `WebSocket.ShortestExact` | libraries/ArduinoHttpClient/src/WebSocketClient.cpp:101-124 | the shortest length form is used for every size except 65535 |
| `WebSocket.ShortReadExact` | libraries/ArduinoHttpClient/src/WebSocketClient.cpp:332-351 | after a read from index `start` that got `readCount` of the `aSize` bytes it asked for, the rest of every payload is unmasked right exactly when the key looks the same from both indices |
| `WebSocket.HeaderInParts` | libraries/ArduinoHttpClient/src/WebSocketClient.cpp:187-239 | whatever arrives later, the header taken is the one that was sent exactly when all of it has arrived |
| `WebSocket.FragmentedMessage` | libraries/ArduinoHttpClient/src/WebSocketClient.cpp:196-204 | over the fragments of a message the type stays that of the first, and the message is final once a final fragment came |
| `WebSocket.UnmaskPart` | libraries/ArduinoHttpClient/src/WebSocketClient.cpp:344-349 | masking is undone by masking, wherever the payload is cut (section 5.3 of RFC 6455) |
| `WebSocket.WebSocketClient.BeginMessage` | libraries/ArduinoHttpClient/src/WebSocketClient.cpp:75-88 | starts an empty message of the type; refused while one is under construction |
| `WebSocket.WebSocketClient.Write` | libraries/ArduinoHttpClient/src/WebSocketClient.cpp:153-179 | appends data that fits to the message; of data that does not, only what makes the message eight bytes long |
| `WebSocket.WebSocketClient.Mask` | libraries/ArduinoHttpClient/src/WebSocketClient.cpp:135-138 | the buffer is combined with the key in place |
| `WebSocket.WebSocketClient.EndMessage` | libraries/ArduinoHttpClient/src/WebSocketClient.cpp:90-146 | sends the message as one final masked frame and empties it |
| `WebSocket.WebSocketClient.Read` | libraries/ArduinoHttpClient/src/WebSocketClient.cpp:332-351 | gives the unmasked bytes that have arrived, also past the end of the message, and moves the mask index by the size asked for; the size left counts down modulo 2^64 |
| `WebSocket.WebSocketClient.ReadFrameHeader` | libraries/ArduinoHttpClient/src/WebSocketClient.cpp:192-239 | reads opcode, size and mask of a header of which at least two octets have arrived; a size of which octets are missing is all ones |
| `WebSocket.WebSocketClient.Pong` | libraries/ArduinoHttpClient/src/WebSocketClient.cpp:247-257 | a ping is answered by a pong with its payload; while a message is under construction, by that message with the payload behind it |
| `WebSocket.WebSocketClient.ParseMessage` | libraries/ArduinoHttpClient/src/WebSocketClient.cpp:181-265 | throws away the rest of the last message; a data message is left to be read, a close ends the connection, a ping is answered, a pong passed over; header in full or in part |
| `WebSocket.Deliver` | libraries/ArduinoHttpClient/src/WebSocketClient.cpp:75-351 | two clients: for every data type, payload, key and part sizes, and whatever follows, what one sends as a message the other parses and reads back part by part |
| `MpuMemory.WriteFlatIsSplice` | libraries/MPU6050/src/MPU6050.cpp:3226-3301 | within the memory exactly the flat range changes, to the data |
| `MpuMemory.ReadBack` | libraries/MPU6050/src/MPU6050.cpp:3195-3225 | what was written is read back |
| `MpuMemory.NextPosition` | libraries/MPU6050/src/MPU6050.cpp:3288-3296 | bank and 8-bit address wrap around as the flat address does |
| `MpuMemory.Mpu.SetMemoryBank` | libraries/MPU6050/src/MPU6050.cpp:3173-3178 | selects the bank; the flag bits do not reach the bank number |
| `MpuMemory.WriteChunk` | libraries/MPU6050/src/MPU6050.cpp:3246-3283 | one chunk is written within its bank, and found as written when it is verified |
| `MpuMemory.WriteMemoryBlock` | libraries/MPU6050/src/MPU6050.cpp:3226-3301 | for every block, bank and address: the flat memory receives the block, no transfer crosses a 256-byte bank, verification succeeds, and program memory makes no difference |
| `MpuMemory.ReadMemoryBlock` | libraries/MPU6050/src/MPU6050.cpp:3195-3225 | gives the bytes of the flat memory and changes none, no transfer crossing a bank |
| `DmpConfig.CommandsOfSerialised` | libraries/MPU6050/src/MPU6050.cpp:3305-3380 | reading inverts serialising, for every list of commands, up to the first unknown one |
| `DmpConfig.SerialisedMeaning` | libraries/MPU6050/src/MPU6050.cpp:3305-3380 | a serialised list means what the list says: all of it, or what comes before its first unknown command |
| `DmpConfig.Formats` | libraries/MPU6050/src/MPU6050.cpp:3311-3360 | the two formats, byte by byte |
| `DmpConfig.BlockLoaded` | libraries/MPU6050/src/MPU6050.cpp:3320-3343 | a block leaves its data from bank * 256 + offset on, and every other cell as it was |
| `DmpConfig.LastBlockStays` | libraries/MPU6050/src/MPU6050.cpp:3305-3380 | after any list of commands a cell holds what the last block that covers it has put there |
| `DmpConfig.DoCommand` | libraries/MPU6050/src/MPU6050.cpp:3311-3377 | one command: a block write or the special instruction; an unknown one changes nothing |
| `DmpConfig.WriteDMPConfigurationSet` | libraries/MPU6050/src/MPU6050.cpp:3305-3380 | a well-formed string is consumed to its end with the effect of its commands in order; at an unknown one false is returned with exactly the commands before it applied |
| `Fifo.Sensor.Discard` | libraries/MPU6050/src/MPU6050.cpp:2913-2921 | a drain pass removes exactly count - length bytes, whatever the sensor adds meanwhile |
| `Fifo.Sensor.Drain` | libraries/MPU6050/src/MPU6050.cpp:2913-2922 | the drain ends with one whole packet counted, the newest, on a packet boundary |
| `Fifo.Sensor.ResetAndWait` | libraries/MPU6050/src/MPU6050.cpp:2907-2911 | after the reset the FIFO is on a boundary, and the wait ends |
| `Fifo.Sensor.Approach` | libraries/MPU6050/src/MPU6050.cpp:2905-2924 | a turn of the main loop keeps the boundary, and resets a FIFO with more than 200 bytes |
| `Fifo.Sensor.GetCurrentFIFOPacket` | libraries/MPU6050/src/MPU6050.cpp:2899-2931 | a 1 delivers one whole packet, the newest at the last count, and leaves the FIFO on a boundary; a sound FIFO that is not empty and neither reset nor overrun during the call gives a 1; without arrivals it is a 1 exactly for one packet, or more within 200 bytes, and delivers the last of them; a 0 means that the time is up or that nothing was there; if no byte is lost during the call, content is sound at the end when it was sound or was reset; the call ends |
| `Flash.Chip.Program` | libraries/ArduinoOTA/src/InternalStorageRenesas.cpp:110-126 | cells are programmed exactly if all were blank: none is programmed twice |
| `Flash.StagedAll` | libraries/ArduinoOTA/src/InternalStorageRenesas.cpp:110-126 | after any run of writes flash and partial unit together are the stream, in place, and nothing else has changed |
| `Ota.Storage.Open` | libraries/ArduinoOTA/src/InternalStorageRenesas.cpp:89-108 | erases one page more than the length needs, and refuses what does not fit; a refused length changes nothing |
| `Ota.Storage.Write` | libraries/ArduinoOTA/src/InternalStorageRenesas.cpp:110-126 | stages a byte, programming the unit when it is full |
| `Ota.Storage.Close` | libraries/ArduinoOTA/src/InternalStorageSTM32.cpp:85-106 | pads the last unit with fewer bytes of 0xff than a unit has |
| `Ota.Closed` | libraries/ArduinoOTA/src/InternalStorageSTM32.cpp:47-105 | the padded stream consists of whole units and stays inside the erased range |
| `Ota.Storage.CopyBlocks` | libraries/ArduinoOTA/src/InternalStorageRenesas.cpp:74-82 | the copy loop ends and moves every cell unchanged, for every whole number of blocks |
| `Ota.Storage.CopyFlash` | libraries/ArduinoOTA/src/InternalStorageRenesas.cpp:65-85 | erases one page more than it copies, or does nothing where that does not fit |
| `Ota.Storage.Apply` | libraries/ArduinoOTA/src/InternalStorageRenesas.cpp:135-141 | replaces the sketch by what is staged |
| `Ota.UpdateFormula` | libraries/ArduinoOTA/src/InternalStorageRenesas.cpp:65-141 | every cell of the copied range after an update, for every accepted length: the image, except where the erased page overlapped the source |
| `Ota.UpdateCorrect` | libraries/ArduinoOTA/src/InternalStorageRenesas.cpp:65-141 | below the maximum by more than a page: the sketch region holds the stream and then 0xff, and nothing outside the two regions has changed |
| `Ota.OverlapExact` | libraries/ArduinoOTA/src/InternalStorageRenesas.cpp:65-72 | the overlap is empty exactly for those lengths |
| `Ota.CopyRoom` | libraries/ArduinoOTA/src/InternalStorageRenesas.cpp:65-72 | for every accepted length but 0 there is room to erase one page more than is copied |
| `Ota.UpdateExact` | libraries/ArduinoOTA/src/InternalStorageRenesas.cpp:65-141 | every accepted update is right exactly for those lengths, or when the image begins with 0xff where the copy has erased its own source |
| `Ota.UpdateFails` | libraries/ArduinoOTA/src/InternalStorageRenesas.cpp:65-141 | an accepted update that goes wrong |
| `Ota.TakenIsPrefix` | libraries/ArduinoOTA/src/WiFiOTA.cpp:299-309 | what is read from a client is the beginning of what it sent, and all of it if it is no more than asked for |
| `Ota.ReceiveBody` | libraries/ArduinoOTA/src/WiFiOTA.cpp:296-311 | every byte read is staged, in order |
| `Ota.PollServer` | libraries/ArduinoOTA/src/WiFiOTA.cpp:230-336 | for every head and body: when each reply is given, and that the device restarts exactly when path, authorization and length are right and as many bytes as announced arrived; then the flash is the updated one for exactly these bytes, and the sketch is what was sent below the maximum by more than a page; every other outcome leaves the sketch as it was |
| `OtaRequest.ReadRequest` | libraries/ArduinoOTA/src/WiFiOTA.cpp:239-258 | the header loop, which tests what is left of a header it has looked at, computes the value-level reading of the lines |
| `OtaRequest.RequestRead` | libraries/ArduinoOTA/src/WiFiOTA.cpp:239-258 | for every first line and header lines, with any blanks around them: the values of the last Content-Length and Authorization lines, and the body left over |
| `OtaRequest.LengthAnnounced` | libraries/ArduinoOTA/src/WiFiOTA.cpp:246-250 | a last `Content-Length: ` line with n in decimal digits announces n bytes |
| `OtaRequest.ClientAccepted` | libraries/ArduinoOTA/src/WiFiOTA.cpp:246-276 | a request whose last Authorization line is what the HTTP client sends is let in for the right credentials only |
| `WiFiScan.Quality` | libraries/WiFiManager/WiFiManager.cpp:3455-3466 | a percentage, 0 exactly up to -100 dBm and 100 exactly from -50 dBm |
| `WiFiScan.QualityMonotone` | libraries/WiFiManager/WiFiManager.cpp:3455-3466 | a stronger signal never has a lower quality |
| `WiFiScan.QualityStep` | libraries/WiFiManager/WiFiManager.cpp:3455-3466 | between -100 and -50 dBm each dBm is worth two percent |
| `WiFiScan.ExchangeStep` | libraries/WiFiManager/WiFiManager.cpp:1580-1586 | one comparison of the exchange sort keeps the permutation and what is settled |
| `WiFiScan.SortByRssi` | libraries/WiFiManager/WiFiManager.cpp:1579-1586 | the sort permutes the indices, in place, into falling signal strength |
| `WiFiScan.RemoveDuplicates` | libraries/WiFiManager/WiFiManager.cpp:1595-1610 | exactly the entries with an earlier entry of the same SSID are marked, although marked entries are compared too |
| `WiFiScan.DisplayItems` | libraries/WiFiManager/WiFiManager.cpp:1628-1669 | marked entries, weak networks and empty SSIDs are passed over, the rest shown in order |
| `WiFiScan.DeduplicatedShowsOnce` | libraries/WiFiManager/WiFiManager.cpp:1595-1669 | a non-empty SSID is shown exactly when one of its networks passes the filter, once, by its strongest network |
| `WiFiScan.ScanItems` | libraries/WiFiManager/WiFiManager.cpp:1574-1669 | the list shown: in falling strength, without repetition, complete without duplicate removal, and every passing SSID once with it |
| `HtmlEntities.SequentialIsEscape` | libraries/WiFiManager/WiFiManager.cpp:3514-3526 | the replacements one after the other are one simultaneous replacement of characters, with and without the one for blanks |
| `HtmlEntities.OrderMatters` | libraries/WiFiManager/WiFiManager.cpp:3514-3526 | with the ampersand last they are not |
| `HtmlEntities.EscapeContains` | libraries/WiFiManager/WiFiManager.cpp:3514-3526 | the result holds no raw <, > or apostrophe, and no blank if blanks are replaced |
| `HtmlEntities.RoundTrip` | libraries/WiFiManager/WiFiManager.cpp:3514-3526 | reading the five references back gives every text |
| `HtmlEntities.Injective` | libraries/WiFiManager/WiFiManager.cpp:3514-3526 | different texts never have the same result, not even across the two modes |
| `HtmlEntities.HtmlEntities` | libraries/WiFiManager/WiFiManager.cpp:3514-3526 | the method that rewrites its string in steps computes the simultaneous replacement |
| `Portal.RunKeeps` | libraries/WiFiManager/WiFiManager.cpp:557-1013 | over every sequence of permitted calls, and all behaviour of clients, timers and networks: `server` is allocated exactly while a portal flag is set, `dnsServer` exactly while the configuration portal is active, and no empty pointer is used |
| `Portal.PermissionExact` | libraries/WiFiManager/WiFiManager.cpp:2535-2541 | a call goes through an empty pointer exactly when it is a `stopConfigPortal` without an active portal |
| `Portal.StartReturnsTrue` | libraries/WiFiManager/WiFiManager.cpp:697-822 | `startConfigPortal` returns true exactly from a blocking call whose last `connectWifi` was made on saving and succeeded |
| `Portal.LoopResult` | libraries/WiFiManager/WiFiManager.cpp:784-816 | the blocking loop reports a connection exactly in that case |
| `Portal.LoopCloses` | libraries/WiFiManager/WiFiManager.cpp:784-816 | a finished blocking call leaves no portal open, unless it is told to keep it |
| `Portal.BlockingEnds` | libraries/WiFiManager/WiFiManager.cpp:784-816 | a blocking call is over by the first turn that finds the time up and by the turn behind a request to exit; if one of these ends it, it returns false with the portal closed |
| `Portal.LoopWaits` | libraries/WiFiManager/WiFiManager.cpp:784-816 | without a timeout and without requests a blocking call goes on, and nothing changes |
| `Portal.SaveOutcome` | libraries/WiFiManager/WiFiManager.cpp:784-950 | what a saved network does to a blocking call: when it is tried, what then ends the call with which result, and when the portal is closed |
| `Portal.ProcessReports` | libraries/WiFiManager/WiFiManager.cpp:865-950 | `processConfigPortal` reports a connection exactly when it tried to connect on saving and succeeded |
| `Portal.StartWaits` | libraries/WiFiManager/WiFiManager.cpp:697-816 | a blocking call begins anew: requests left from before do not end it, and without a timeout and new ones it goes on |
| `Portal.ProcessSaves` | libraries/WiFiManager/WiFiManager.cpp:829-950 | what a saved network does in a call of `process`: when it is tried, what is returned, and when the portal is closed; a running web portal keeps both open |
| `Portal.ProcessEnds` | libraries/WiFiManager/WiFiManager.cpp:829-856 | a non-blocking call that finds the time up, or has been asked to exit, closes the portal and returns false |
| `Portal.ProcessExit` | libraries/WiFiManager/WiFiManager.cpp:829-856 | where exiting is allowed, a request to exit has closed the portal at the latest in the next call |
| `Portal.StartsAndStops` | libraries/WiFiManager/WiFiManager.cpp:557-822 | what starting and stopping leave: which portal is open after a start, none after a `stopWebPortal`, and a blocking portal is only asked to end by `stopConfigPortal` |
| `WiFiManager.Manager.StartConfigPortal` | libraries/WiFiManager/WiFiManager.cpp:697-822 | the method on the object, with its blocking loop, is the value-level call |
| `WiFiManager.Manager.BlockingLoop` | libraries/WiFiManager/WiFiManager.cpp:784-816 | the loop on the object is the value-level loop |
| `WiFiManager.Manager.ProcessConfigPortal` | libraries/WiFiManager/WiFiManager.cpp:865-950 | the method on the object is the value-level turn, and uses no empty pointer |
| `WiFiManager.Manager.ShutdownConfigPortal` | libraries/WiFiManager/WiFiManager.cpp:957-1013 | the method on the object is the value-level shutdown, and uses no empty pointer |
| `WiFiManager.Manager.Process` | libraries/WiFiManager/WiFiManager.cpp:829-856 | the method on the object is the value-level call |
| `WiFiManager.Manager.StartWebPortal` | libraries/WiFiManager/WiFiManager.cpp:557-562 | the method on the object is the value-level call |
| `WiFiManager.Manager.StopWebPortal` | libraries/WiFiManager/WiFiManager.cpp:569-576 | the method on the object is the value-level call |
| `WiFiManager.Manager.StopConfigPortal` | libraries/WiFiManager/WiFiManager.cpp:2535-2541 | the method on the object is the value-level call |
| `Motor.Duty` | testes/src/main.cpp:53-58 | 0 exactly below the dead band, at least 517 above it, and 1605 exactly from the maximum speed on |
| `Motor.DutyMonotone` | testes/src/main.cpp:53-58 | a higher speed never has a lower duty |
| `Motor.DutyBetween` | testes/src/main.cpp:53-58 | between the dead band and the maximum speed v, in either direction, the duty is 480 + 3750 v, rounded down |
| `Motor.TickOutcome` | testes/src/main.cpp:113-161 | from any sound pins, a tick sets every output as wanted, and after none of its writes are both sides of the bridge driven or a duty out of range |
| `Motor.BothInputsExact` | testes/src/main.cpp:133-146 | IN1 and IN2 are both up only between the two writes that turn reverse into forward |
| `Motor.WheelsOfTarget` | testes/src/main.cpp:326-337 | what the four directions ask of the two wheels; an unknown direction asks for a halt |
| `Motor.RequestStamps` | testes/src/main.cpp:298-347 | only messages are stamped with the time: a disconnection stores a halt and leaves the age of the command |
| `Motor.MessageAsks` | testes/src/main.cpp:315-337 | what the text of a message asks of the wheels: what stands before its first comma is the direction; `P` alone asks for a halt |
| `Motor.DirectionsDrive` | testes/src/main.cpp:102-347 | from the text of a message to the pins: which of IN1, IN2, RPWM and LPWM a fresh `F`, `T`, `E` or `D` drives, with which duty, and that any other direction and an old message drive none |
| `Motor.StopMessage` | testes/src/main.cpp:102-347 | the message `P` switches everything off |
| `Motor.RunKeeps` | testes/src/main.cpp:102-163 | over every interleaving of single reads, stores and pin writes: RPWM and LPWM are never both driven, every duty is at most 1605, the control task acts on commands stored as a whole, and between ticks the pins show what the last decision wants |
| `Motor.StoresWhole` | testes/src/main.cpp:339-344 | every update that gets the mutex is stored as a whole, the unstamped ones with the time before |
| `Motor.StaleExact` | testes/src/main.cpp:113-113 | the watchdog fires exactly when the true age of the command, modulo 2^32 ms, is over 500 ms |
| `Motor.DecisionExact` | testes/src/main.cpp:113-146 | every decision is for what a fresh command would get, or for nothing when the true age modulo 2^32 ms is over 500 ms |
| `Motor.WatchdogWraps` | testes/src/main.cpp:102-163 | for every message and every age, a run from the start that decides about it at that age: 2^32 ms after it was accepted the watchdog lets it through again |
| `Motor.QuietStops` | testes/src/main.cpp:102-163 | with the last accepted command more than 500 ms and less than 2^32 ms old, the first tick to end has switched everything off, and it stays off at every moment until a command is accepted, whatever else happens |
| `Motor.Watchdog` | testes/src/main.cpp:102-163 | the same from the beginning of any tick |
| `Motor.OnlyMessagesAccepted` | testes/src/main.cpp:298-347 | over every run without a message that asks for something, the age of the command is not renewed: not by disconnections, not by updates without the mutex |
| `Motor.SilenceStops` | testes/src/main.cpp:102-163 | from a command that is over 500 ms old, as long as no message comes or is being stored, the motors are off from the end of the next tick on |
| `Motor.CommandsAsked` | testes/src/main.cpp:102-347 | over all runs, what the control task acts on is what some event that arrived has asked for, or a halt |
| `Motor.HaltStops` | testes/src/main.cpp:300-306 | a stored halt switches everything off at the next decision |
| `MotorTask.Robot.Tick` | testes/src/main.cpp:102-163 | one pass of the loop makes exactly the writes of a tick, in order, and leaves the pins as wanted |
| `MotorTask.Robot.WebSocketEvent` | testes/src/main.cpp:298-347 | the handler stores what the event asks for, or nothing without the mutex |
| `Quaternion.Associative` | libraries/MPU6050/src/helper_3dmath.h:56-67 | the product is associative |
| `Quaternion.NormOfProduct` | libraries/MPU6050/src/helper_3dmath.h:56-67 | squared norms multiply |
| `Quaternion.ConjugateInverts` | libraries/MPU6050/src/helper_3dmath.h:69-71 | a conjugate undoes its quaternion up to the squared norm |
| `Quaternion.TurnedIsPure` | libraries/MPU6050/src/helper_3dmath.h:194-207 | the part `rotate` drops is zero, for every quaternion |
| `Quaternion.RotateLength` | libraries/MPU6050/src/helper_3dmath.h:194-207 | a rotation by a unit quaternion keeps lengths; by any other it stretches squared lengths by the square of the squared norm |
| `Quaternion.RotateBack` | libraries/MPU6050/src/helper_3dmath.h:194-207 | a rotation by a unit quaternion is undone by its conjugate, in either order |
| `Quaternion.RotateTwice` | libraries/MPU6050/src/helper_3dmath.h:194-207 | rotating by p and then by q is rotating by q p |
| `Quaternion.RotateKeepsDot` | libraries/MPU6050/src/helper_3dmath.h:194-207 | a rotation by a unit quaternion keeps inner products |
| `Quaternion.GravityIsRotated` | libraries/MPU6050/src/MPU6050_6Axis_MotionApps20.cpp:537-543 | gravity is the vertical rotated by the conjugate |
| `Quaternion.GravityIsVertical` | libraries/MPU6050/src/MPU6050_6Axis_MotionApps20.cpp:537-543 | gravity of a unit quaternion is a unit vector, and the rotation makes it vertical |
| `Quaternion.VectorFloat.Rotate` | libraries/MPU6050/src/helper_3dmath.h:194-207 | the method that overwrites the fields computes the rotation |
| `Quaternion.VectorFloat.Normalize` | libraries/MPU6050/src/helper_3dmath.h:182-187 | the fields become a vector of length 1 in the same direction |
| `FixedGravity.UpperHalf` | libraries/MPU6050/src/MPU6050_6Axis_MotionApps20.cpp:527-530 | a component of the packet is its 32-bit value divided by 2^16, rounded down |
| `FixedGravity.NoOverflowExact` | libraries/MPU6050/src/MPU6050_6Axis_MotionApps20.cpp:527-535 | the 32-bit computation overflows for two quaternions and for no other |
| `FixedGravity.Diagonal` | libraries/MPU6050/src/MPU6050_6Axis_MotionApps20.cpp:527-535 | the three combinations are the sides of a box whose diagonal is the squared norm |
| `FixedGravity.LengthBound` | libraries/MPU6050/src/MPU6050_6Axis_MotionApps20.cpp:527-535 | for a squared norm of at most 2^28: no overflow, the results fit 16 bits, and the vector is at most 8192 long |
| `FixedGravity.NearReal` | libraries/MPU6050/src/MPU6050_6Axis_MotionApps20.cpp:527-535 | each component is less than one unit from the real gravity |
| `FixedGravity.DmpGetGravity` | libraries/MPU6050/src/MPU6050_6Axis_MotionApps20.cpp:527-535 | the three results are stored, and nothing else |

## Left out

- Sockets, WiFi, mDNS, UDP, the serial port, micro-ROS, delays and pin set-up: parameters of the model, or not in it.
- TwoWire slave mode, `nbendTransmission` and `nbrequestFrom`: the callbacks of the non-blocking calls are recorded, not run; memory allocation succeeds.
- Twi.WriteOutcome: a transaction starts on a free bus, and no interrupt comes in the middle of the call that starts it.
- Twi.ReadOutcome: the same, and a read of no bytes, whose length minus one wraps around.
- TwoWire.Wire.EndTransmission: the call after a timeout, made while the transaction before it is still open.
- TwoWire.Wire.RequestFrom: the same, and a quantity of less than one.
- I2Cdev: words, the other Wire variants, and a register pointer that runs into the FIFO register.
- I2cDevice.ReadBytes: the number of bytes requested from the FIFO is taken to be there, as its callers make sure.
- HttpClient: sending requests, `read(buf, size)` (it bypasses the chunk framing), `responseBody`, and the body count, which no result depends on.
- StatusLine.ResponseStatusCode: no pause before the last octet is longer than the timeout, and the request has been sent.
- HttpClient.HttpClient.ReadHeader: `char` is unsigned, as on the board's processor.
- Http.RunIsFeed: header values other than the two, and what trailers with hexadecimal digits do to the reader.
- WebSocket.WebSocketClient.Write: data that does not fit behind more than eight bytes; the source subtracts from the size of the wrong variable there, and the result has no meaning in C++.
- WebSocket.WebSocketClient.Pong: a payload that has arrived in part only, or does not fit the transmit buffer.
- WebSocket.WebSocketClient.ParseMessage: a control payload that has arrived in part only, for which the loops of the source wait or echo what is not there; a ping that does not fit the transmit buffer.
- WebSocket.WebSocketClient.ReadFrameHeader: the operands of the `|` that assembles a length are read from left to right, which C++ does not promise.
- WebSocket.FrameParses: the mask is four arbitrary bytes; how they are drawn is not modelled.
- MpuMemory.WriteMemoryBlock: a device that loses bytes; on a faithful one verification never fails, so the failure branch is not taken.
- MPU6050: calibration, register getters and setters, the firmware tables.
- DmpConfig.WriteDMPConfigurationSet: a string that is cut short, of which the source reads past the end.
- Fifo.Sensor.GetCurrentFIFOPacket: `micros()` does not wrap around during a call; whole packets arrive at once.
- Ota.PollServer: the reply for a body too large (413) is left out, because `open` has refused it before; numbers in headers are not cut to 32 bits.
- Ota.Storage.Apply: the STM32 copy (another routine, with the same staging), the reset, and code that runs while the flash is changed.
- OTA: storages for other boards, SD and serial flash, and the ESP32 downloader.
- Portal.RunKeeps: callbacks that call back into the portal, access points, page building, and the clock behind the timeout, which is an arbitrary answer in every turn.
- WiFiScan.ScanItems: the text of the items; the cached results of a scan that fails.
- HtmlEntities.HtmlEntities: double quotes, which the source does not replace either.
- Motor.RunKeeps: floats are reals, and a number that cannot be parsed is the number its parser gives; set-up of the pins.
- Quaternion.RotateLength: floats are reals, so rounding is left out; square roots are given by their defining property.
- Quaternion: rotation of 16-bit vectors, Euler angles, yaw, pitch and roll.
- FixedGravity.DmpGetGravity: the overflow the two quaternions cause has no result in C++, so the method asks for their absence.
