# Proofs about the lock firmware

A Dafny model of the protocol and storage code of the lock firmware, with proofs. Each module
follows one component; code that changes fields, buffers, queues or stored keys step by step is a
class or a method with loops, proved against a specification about which the properties are shown.

| module | component |
|---|---|
| `Tlv8` | the resumable TLV8 printer and parser (section 14.1 of the HomeKit Accessory Protocol Specification, R2) |
| `WildMatch` | the wildcard matcher of the file editor |
| `Multipart` | the byte-at-a-time parser of multipart forms (section 5.1.1 of RFC 2046) |
| `WebSocketFrames`, `WebSocketSender`, `WebSocketReceiver`, `WebSocketSegments`, `WebSocketMessages`, `WebSocket` | WebSocket framing, fragmentation under TCP windows, reassembly across segments (sections 5.2 to 5.4 of RFC 6455) |
| `CrcA` | CRC_A (Annex B of ISO/IEC 14443-3) and the ECP frame |
| `AccessLog`, `AccessLogFlash` | the access log: RAM queue, ring of 200 slots in flash, upload, and loss of power between any two flash writes |
| `UidStore`, `Decimals` | accepted and deactivated cards as two lists of numbered keys in one flash store |
| `AsyncTcp` | the in-place filter of the event queue and the table of closed slots |
| `BasicResponse` | head and body of a response through a TCP window |
| `Pn532` | checksummed PN532 frames (section 6.2.1 of the PN532 User Manual, UM0701-02) |
| `Mpr121` | the touch chip's driver: configuration only in stop mode |
| `ServerSentEvents`, `LineRules` | the event generator against the interpreter and the line ends of sections 9.2.5 and 9.2.6 of the HTML Standard, and acknowledgements |
| `DigitalKey` | padding and secure channel of the Digital Key transaction |
| `Bytes`, `Wrappers` | bytes, facts about sequences, values that may be missing |

`dafny verify dfyconfig.toml` checks everything.

## What the environment is taken to do

- Calls into the flash store succeed while there is power. The store is a map: each single write or
  erase takes effect at once or, when the power goes, not at all, and `nvs_commit` adds nothing. In the
  access log the power may go between any two writes; one operation on the card lists is one step.
- A TCP `add` or `write` of no more than the reported space succeeds; the space of a WebSocket
  connection is below 2^16; no more bytes are acknowledged than were handed over.
- I2C and SPI transfers succeed; what the PN532 sends is an arbitrary stream of bytes, and
  `readResponse` is modelled from the moment the chip is ready.
- No other task adds to the event queue while it is rotated, and queued pointers differ.
- TCP segments cut a WebSocket header nowhere; the segment buffer has one spare byte; an application
  writes nothing into it but, at most, a zero behind each chunk; a frame's length fits 32 bits.
- A multipart boundary has 1 to 255 bytes (the code counts boundary bytes in eight bits).
- The clock, random mask keys, backend answers and TCP windows are parameters of the methods, and
  the theorems hold for all of them.
- AES-CBC and CMAC are unknown functions: decryption undoes encryption under the same key and
  vector, lengths of whole blocks are kept, and a MAC has sixteen bytes. Decrypting anything but
  whole blocks is an error. The peer of the channel does the same with the roles swapped.
- MPR121: `MPR121_begin` comes before any call that puts the chip in run mode, and the chip
  takes the reset code, 0x63 in SRST, as its data sheet says.

## Where the code and its documentation part

The model follows the code. What follows from it is a lemma.

- `matchWild` can miss a match when both strings contain `*`: `WildMatch.SafeTexts` and
  `WildMatch.SafePatterns` say exactly for which texts and patterns it cannot.
- `TLV::unpack` forgets a half-read record when it is called again on an empty list:
  `Tlv8.CutIsHarmless`, `Tlv8.RoundTripInPieces`.
- `MPR121_setCalibrationLock` with mode 3 sets the proximity bits, although its comment and the
  description of the mode (components/mpr121/mpr121.h:188-191) speak of the lock bits:
  `Mpr121.CalibrationLockFields`.
- `pad_mode_3` adds a whole extra block when the flag byte completes one, unlike padding method 2 of
  ISO/IEC 9797-1, and `unpad_mode_3` accepts any bytes after the flag: `DigitalKey.PaddedLength`,
  `DigitalKey.UnpadIs`.
- `generateEventMessage` takes "\n\r" for one line break, the standard for two. When that loses a line
  is `LineRules.LineRulesAgree`, with an input in `LineRules.FeedThenReturn`; an event type with a line
  break does not arrive: `ServerSentEvents.EventArrives`.
- `writeFrame` builds a frame with a wrong length byte when header and body have 255 bytes or more:
  `Pn532.WriteFrame`.
- A loss of power inside `persist_record` or `pop_record` can send a record twice, block uploads, send the
  newest record first or bring back a lost one: `AccessLog.LossRepeats`, `AccessLog.NothingSent`,
  `AccessLog.NewestFirst` and `AccessLog.LostRecordReturns`; exactly where the ring survives is in
  `AccessLogFlash.PersistCutExactly` and `AccessLogFlash.PopCutExactly`, how it mends in
  `AccessLogFlash.BlockedUntilFull` and `AccessLogFlash.Mends`, and from which states on nothing is
  repeated in `AccessLog.NeverRepeatsExactly`.
- An extended reply of the PN532 with one wrong byte can be accepted: `Pn532.OneWrongByteExtended`.
- A zero that an application writes behind an empty chunk is not undone and can fall on the next header:
  `WebSocketReceiver.Receiver.DeliverChunk`, and when that matters in `WebSocketReceiver.ZeroedHeader`.
- A web socket message without bytes is dropped from the queue without a frame: `WebSocket.MessagesArrive`.
- After 2^32 closed connections the stamp counter is 0 for one release, whose slot then stays taken:
  `AsyncTcp.SlotTable.Free`.
- After a complete delimiter that is followed by neither CR LF nor `-`, the multipart parser writes on
  to the item; for a file its buffer is gone by then. The model stops there in a state of its own,
  `Undefined`: `Multipart.BehindItem`, `Multipart.StrayBytes` and `Multipart.OnlyBehindFiles` say when,
  `Multipart.UndefinedReached` with which input, and `Multipart.TextAddedAgain` what becomes of a text.
- A semicolon in a quoted name or file name breaks the header: `Multipart.TextReadExactly`,
  `Multipart.FileReadExactly`.
- `AsyncBasicResponse::_ack` does not count the last chunk as sent: `BasicResponse.Response.Ack`.

## Model

| member | source | states |
|---|---|---|
| `Tlv8.RoundTrip` | components/HK-HomeKit-Lib/src/utils/TLV8.cpp:110-221 | Unpacking the packed form of a list into an empty list gives its reverse if and only if no two neighbours share a tag; long values are put together from their fragments and no half-read record remains. |
| `Tlv8.RoundTripInPieces` | components/HK-HomeKit-Lib/src/utils/TLV8.cpp:164-221 | The packed bytes cut into any pieces, one `unpack` call each, give back the list if and only if the first non-empty piece holds the opening of the first record: its header and, unless its value is empty, a value byte. |
| `Tlv8.CutIsHarmless` | components/HK-HomeKit-Lib/src/utils/TLV8.cpp:164-169 | After any input, stopping and calling `unpack` again is the same as one call for every continuation if and only if the list is non-empty or no record is half read; this is what the phase reset on an empty list costs. |
| `Tlv8.CutAfterTagFails` | components/HK-HomeKit-Lib/src/utils/TLV8.cpp:166-167 | A concrete input for the other half: the one-record list 5 -> 01, cut after its tag, is lost. |
| `Tlv8.ShortestForm` | components/HK-HomeKit-Lib/src/utils/TLV8.cpp:56-68 | The printed form of a list is the shortest of all inputs that the parser reads as that list. |
| `Tlv8.RoundTripTwice` | components/HK-HomeKit-Lib/src/utils/TLV8.cpp:110-221 | Packing and unpacking twice is the identity on every list that `add` can build. |
| `Tlv8.EncodeInjective` | components/HK-HomeKit-Lib/src/utils/TLV8.cpp:110-160 | Two such lists with the same packed bytes are equal. |
| `Tlv8.BuiltByAdd` | components/HK-HomeKit-Lib/src/utils/TLV8.cpp:72-80 | The lists without equal neighbouring tags are exactly those that some sequence of `add` calls builds from an empty list. |
| `Tlv8.FeedConcat` | components/HK-HomeKit-Lib/src/utils/TLV8.cpp:164-221 | The parser over a concatenation is the parser over its parts one after the other. |
| `Tlv8.FeedEncode` | components/HK-HomeKit-Lib/src/utils/TLV8.cpp:164-221 | Parsing printed records adds them in order to whatever list was there, and ends between records. |
| `Tlv8.FeedChunk` | components/HK-HomeKit-Lib/src/utils/TLV8.cpp:210-218 | A run of value bytes copied at once has the effect of the bytes one by one. |
| `Tlv8.CallsOnNonEmpty` | components/HK-HomeKit-Lib/src/utils/TLV8.cpp:164-221 | On a non-empty list any number of `unpack` calls is one call on the joined input. |
| `Tlv8.PackCopy` | components/HK-HomeKit-Lib/src/utils/TLV8.cpp:138-155 | Copying part of a fragment removes exactly those bytes from what is still to be emitted. |
| `Tlv8.PackLength` | components/HK-HomeKit-Lib/src/utils/TLV8.cpp:129-136 | The length byte written is the one the encoding has at that place. |
| `Tlv8.Tlv.constructor` | components/HK-HomeKit-Lib/include/TLV8.h:76-76 | A new list is empty. |
| `Tlv8.Tlv.AddRecord` | components/HK-HomeKit-Lib/src/utils/TLV8.cpp:72-80 | A record whose tag is that of the front is merged into it, any other becomes the new front; neighbours keep different tags. |
| `Tlv8.Tlv.Find` | components/HK-HomeKit-Lib/src/utils/TLV8.cpp:84-90 | The first record of the range with the tag, or the end of the whole list if the range has none. |
| `Tlv8.Tlv.PackSize` | components/HK-HomeKit-Lib/src/utils/TLV8.cpp:94-106 | The size formula is the number of bytes of the encoding, for any part of the list. |
| `Tlv8.Tlv.OsPrintItem` | components/HK-HomeKit-Lib/src/utils/TLV8.cpp:56-68 | The do-while loop over fragments writes the encoding of one record, also of an empty one. |
| `Tlv8.Tlv.OsPrint` | components/HK-HomeKit-Lib/src/utils/TLV8.cpp:56-68 | The printed bytes of a range are its encoding, the one `pack` emits. |
| `Tlv8.Tlv.PackInit` | components/HK-HomeKit-Lib/include/TLV8.h:92-92 | After `pack_init` what is to be emitted is the encoding of the range. |
| `Tlv8.Tlv.PackPhase` | components/HK-HomeKit-Lib/src/utils/TLV8.cpp:114-156 | One turn of the switch moves bytes from what is to be emitted to the buffer, touches nothing else of the buffer, and makes progress even when it writes nothing. |
| `Tlv8.Tlv.CopyValue` | components/HK-HomeKit-Lib/src/utils/TLV8.cpp:149-155 | The copying part of a fragment writes at least one byte, and exactly what is next. |
| `Tlv8.Tlv.Pack` | components/HK-HomeKit-Lib/src/utils/TLV8.cpp:110-160 | One call emits the next piece of the encoding, as long as the buffer or all that is left, and leaves the rest of the buffer alone. |
| `Tlv8.Tlv.PackWhole` | components/HK-HomeKit-Lib/include/TLV8.h:97-97 | The one-shot call writes the encoding of the whole list into a buffer of exactly its size. |
| `Tlv8.Tlv.PackInPieces` | components/HK-HomeKit-Lib/src/utils/TLV8.cpp:110-160 | For every sequence of buffer sizes the pieces are consecutive parts of the one encoding, and a piece shorter than its buffer ends it. |
| `Tlv8.Tlv.Unpack` | components/HK-HomeKit-Lib/src/utils/TLV8.cpp:164-221 | The chunked loop over a buffer is the byte-at-a-time parser, with the reset on an empty list. |
| `WildMatch.MatchWild` | components/ESPAsyncWebServer/src/SPIFFSEditor.cpp:279-299 | The two loops end, and answer as the pattern language does whenever one of the two strings has no literal star; a positive answer is always right. |
| `WildMatch.Correct` | components/ESPAsyncWebServer/src/SPIFFSEditor.cpp:279-299 | No false match ever; no lost match unless both strings contain a star. |
| `WildMatch.SafeTexts` | components/ESPAsyncWebServer/src/SPIFFSEditor.cpp:283-290 | A text is decided correctly against every pattern if and only if it has no star. |
| `WildMatch.SafePatterns` | components/ESPAsyncWebServer/src/SPIFFSEditor.cpp:283-290 | A pattern is decided correctly on every text if and only if it has no star. |
| `WildMatch.AnswerIsPending` | components/ESPAsyncWebServer/src/SPIFFSEditor.cpp:282-296 | In every state of the loop the answer to come is whether the rest of the text fits the segment after the most recent star, possibly with the star grown. |
| `WildMatch.TwoStars` | components/ESPAsyncWebServer/src/SPIFFSEditor.cpp:287-290 | Why forgetting older stars is safe: when a later star is reached, growing an earlier one allows nothing more. |
| `WildMatch.BacktrackKeeps` | components/ESPAsyncWebServer/src/SPIFFSEditor.cpp:291-294 | Growing the most recent star by one character after a mismatch loses no match. |
| `WildMatch.AnswerIsSound` | components/ESPAsyncWebServer/src/SPIFFSEditor.cpp:282-298 | From any state, a positive answer comes with a way to match what is left. |
| `WildMatch.SpoilerRejected` | components/ESPAsyncWebServer/src/SPIFFSEditor.cpp:283-286 | For every text with a star, the pattern built for it is rejected: the star of the pattern is consumed by the star of the text. |
| `WildMatch.DecoyMatches` | components/ESPAsyncWebServer/src/SPIFFSEditor.cpp:283-286 | For every pattern with a star, a text that begins with the pattern itself and yet belongs to its language; consuming it literally fails. |
| `Multipart.ItemScan` | components/ESPAsyncWebServer/src/WebRequest.cpp:394-552 | For every boundary without a carriage return and every body that does not contain the delimiter, the scan recovers exactly the body when the delimiter arrives: no held byte is lost or written twice. |
| `Multipart.BodyKept` | components/ESPAsyncWebServer/src/WebRequest.cpp:405-525 | While a body without the delimiter is scanned, item bytes and held-back bytes together are the body so far. |
| `Multipart.FormRoundTrip` | components/ESPAsyncWebServer/src/WebRequest.cpp:394-552 | A form of text and file parts, encoded as section 5.1.1 of RFC 2046 wants it and with no semicolon in a name, is parsed to exactly its parameters and files, in order; a file without bytes gives no parameter. |
| `Multipart.PartRead` | components/ESPAsyncWebServer/src/WebRequest.cpp:429-525 | One part without a semicolon in a name, from its header lines to the delimiter that closes it, yields its name, its file name and its bytes. |
| `Multipart.TypeWithoutCase` | components/ESPAsyncWebServer/src/WebRequest.cpp:434-437 | The header Content-Type, written in any case, makes the item a file of the type that follows, if anything follows. |
| `Multipart.DispositionWithoutCase` | components/ESPAsyncWebServer/src/WebRequest.cpp:437-457 | So may Content-Disposition. |
| `Multipart.OtherLines` | components/ESPAsyncWebServer/src/WebRequest.cpp:433-459 | No other header line says anything about the item. |
| `Multipart.IgnoresCase` | components/ESPAsyncWebServer/src/WebRequest.cpp:434-437 | Two names are taken for equal if and only if they differ at most in the case of letters. |
| `Multipart.TextReadExactly` | components/ESPAsyncWebServer/src/WebRequest.cpp:437-457 | For every text part of one-line name: it is read back as sent if and only if the name has no semicolon. |
| `Multipart.FileReadExactly` | components/ESPAsyncWebServer/src/WebRequest.cpp:437-457 | For every file part of one-line names: it is read back as sent if and only if neither name has a semicolon. |
| `Multipart.BehindItem` | components/ESPAsyncWebServer/src/WebRequest.cpp:526-550 | For every body without the delimiter and all bytes behind it: a file item ends in a store through the cleared buffer pointer if and only if the bytes are neither a dash nor CR LF; a text item then has its one parameter and is open again. |
| `Multipart.TextAddedAgain` | components/ESPAsyncWebServer/src/WebRequest.cpp:526-550 | A text item that goes on behind its delimiter is added a second time, with the delimiter and all that came behind, whatever the stray bytes are. |
| `Multipart.StrayBytes` | components/ESPAsyncWebServer/src/WebRequest.cpp:394-552 | The same from the first byte of a body, behind any well-formed parts. |
| `Multipart.OnlyBehindFiles` | components/ESPAsyncWebServer/src/WebRequest.cpp:526-550 | In no stream of bytes at all is the cleared pointer used in another way: exactly when a byte strays behind the delimiter of a file. |
| `Multipart.UndefinedReached` | components/ESPAsyncWebServer/src/WebRequest.cpp:526-540 | A concrete body that gets there: a file of one byte and a letter behind its delimiter. |
| `Multipart.ParseSegments` | components/ESPAsyncWebServer/src/WebRequest.cpp:135-142 | Any bytes in any segments: the parser ends in the state of the machine run over all of them. |
| `Multipart.ParseForm` | components/ESPAsyncWebServer/src/WebRequest.cpp:394-552 | A form in any segments gives its parameters, and every file in it has reached the handler whole: contiguous chunks that join to its bytes, only the last of them final, for any placement of the flushes. |
| `Multipart.OpeningWalk` | components/ESPAsyncWebServer/src/WebRequest.cpp:411-428 | The first line is accepted exactly when it is two dashes, the boundary and CRLF; anything else is a parse error. |
| `Multipart.BothAttributes` | components/ESPAsyncWebServer/src/WebRequest.cpp:437-457 | The slicing of a Content-Disposition line finds name and file name. |
| `Multipart.RunConcat` | components/ESPAsyncWebServer/src/WebRequest.cpp:135-142 | The parse of a body is the parse of its segments one after the other. |
| `Multipart.UploadOneMore` | components/ESPAsyncWebServer/src/WebRequest.cpp:369-378 | One more chunk at the offset reached keeps the offsets contiguous and only the last chunk final. |
| `Multipart.Parser.constructor` | components/ESPAsyncWebServer/src/WebRequest.cpp:397-403 | The state before the first byte. |
| `Multipart.Parser.HandleUploadByte` | components/ESPAsyncWebServer/src/WebRequest.cpp:369-378 | The byte joins the buffer, which is handed on at 1460 bytes or at the end of a segment: chunks and buffer together stay the file so far. |
| `Multipart.Parser.ItemWriteByte` | components/ESPAsyncWebServer/src/WebRequest.cpp:395-395 | The byte is appended to the item, whichever kind it is. |
| `Multipart.Parser.WriteBack` | components/ESPAsyncWebServer/src/WebRequest.cpp:481-506 | A row of held bytes is appended in order. |
| `Multipart.Parser.ParseOpening` | components/ESPAsyncWebServer/src/WebRequest.cpp:411-428 | The opening states refine the machine over single bytes. |
| `Multipart.Parser.ParseHeaderLine` | components/ESPAsyncWebServer/src/WebRequest.cpp:433-459 | The loop over attributes sets what the attribute list says, and clears the line. |
| `Multipart.Parser.StartItem` | components/ESPAsyncWebServer/src/WebRequest.cpp:460-476 | A blank line opens an empty item with its own buffer. |
| `Multipart.Parser.CloseItem` | components/ESPAsyncWebServer/src/WebRequest.cpp:508-521 | The delimiter turns the item into a parameter; a file gets a last chunk, marked final, unless it is empty, and its chunks join the record of closed files. |
| `Multipart.Parser.GiveBack` | components/ESPAsyncWebServer/src/WebRequest.cpp:478-506 | A mismatch writes to the item exactly the part of the delimiter that was held back. |
| `Multipart.Parser.HoldBack` | components/ESPAsyncWebServer/src/WebRequest.cpp:478-524 | A match holds back one byte more, or closes the item when the delimiter is complete. |
| `Multipart.Parser.ParseHeld` | components/ESPAsyncWebServer/src/WebRequest.cpp:478-525 | The states that hold bytes back refine the machine, the replay of the mismatching byte included. |
| `Multipart.Parser.ParseAfterDelimiter` | components/ESPAsyncWebServer/src/WebRequest.cpp:526-540 | After a delimiter: end of the form, another part, or text that goes on; the content length is corrected at the end. |
| `Multipart.Parser.ParseAfterReturn` | components/ESPAsyncWebServer/src/WebRequest.cpp:541-550 | The byte after the delimiter and its carriage return. |
| `Multipart.Parser.ParseDelimiter` | components/ESPAsyncWebServer/src/WebRequest.cpp:478-550 | Inside a possible delimiter and behind a complete one, one call is one step of the machine. |
| `Multipart.Parser.ParseState` | components/ESPAsyncWebServer/src/WebRequest.cpp:404-552 | The branches over the states refine the machine. |
| `Multipart.Parser.ParseByte` | components/ESPAsyncWebServer/src/WebRequest.cpp:394-552 | One call is one step of the machine in every state, the first byte of a body from a fresh one, and keeps the invariant on item, chunks and buffer. |
| `Multipart.Parser.OnData` | components/ESPAsyncWebServer/src/WebRequest.cpp:135-142 | A segment runs the machine over its bytes; of every file item closed so far the handler has seen contiguous chunks that join to the file, only the last of them final; a segment that ends in the bytes of a file has handed all of them over. |
| `WebSocketSender.FrameWindow` | components/ESPAsyncWebServer/src/AsyncWebSocket.cpp:39-46 | A positive window leaves eight bytes of the free space for the header. |
| `WebSocketSender.BuildHeader` | components/ESPAsyncWebServer/src/AsyncWebSocket.cpp:71-90 | The header buffer gets flags, length and key at their places. |
| `WebSocketSender.LooksLikeHeader` | components/ESPAsyncWebServer/src/AsyncWebSocket.cpp:77-90 | Those places make up the header of section 5.2 of RFC 6455 when the buffer has the right length. |
| `WebSocketSender.MaskInPlace` | components/ESPAsyncWebServer/src/AsyncWebSocket.cpp:99-103 | Each payload byte is replaced by its exclusive or with the key byte of its place, nothing else of the message changes. |
| `WebSocketSender.SendFrame` | components/ESPAsyncWebServer/src/AsyncWebSocket.cpp:48-114 | Nothing is written when the header does not fit, a payload is cut to what fits behind the header, and a frame that fits is written whole and correctly encoded. |
| `WebSocketSender.BasicMessage.constructor` | components/ESPAsyncWebServer/src/AsyncWebSocket.cpp:281-298 | A new message holds a copy of its text and has sent nothing. |
| `WebSocketSender.BasicMessage.Ack` | components/ESPAsyncWebServer/src/AsyncWebSocket.cpp:317-323 | The status becomes SENT exactly when all is sent and acknowledged. |
| `WebSocketSender.BasicMessage.Send` | components/ESPAsyncWebServer/src/AsyncWebSocket.cpp:324-361 | One call sends as much as the window takes, never truncated: the frames so far carry the message so far, the first has the opcode and the others are continuations, FIN is on the last only, and the awaited acknowledgements equal the bytes handed to TCP. |
| `WebSocketSender.BasicMessage.SendFragment` | components/ESPAsyncWebServer/src/AsyncWebSocket.cpp:340-360 | One more frame goes out whole and extends that record. |
| `WebSocketSender.WebSocketClient.RunQueue` | components/ESPAsyncWebServer/src/AsyncWebSocket.cpp:531-541 | Finished messages leave the queue in order, and the next message sends exactly what the window takes; the connection carries whole messages one after the other. With an open window a front message between two frames moves on. |
| `WebSocketSender.WebSocketClient.OnAck` | components/ESPAsyncWebServer/src/AsyncWebSocket.cpp:501-521 | The front message is credited; if that completes it, it leaves the queue, else if a frame is fully acknowledged the next one follows. |
| `WebSocketSender.WebSocketClient.QueueMessage` | components/ESPAsyncWebServer/src/AsyncWebSocket.cpp:548-563 | A message joins the end of a queue of at most 32, or is dropped; if the connection can take anything the queue runs at once; the stream stays in order. |
| `WebSocketSender.WebSocketClient.Exchange` | components/ESPAsyncWebServer/src/AsyncWebSocket.cpp:501-541 | Every queued message is handed over, in order, for all open windows when each turn acknowledges what is on the wire: after at most the queued bytes plus two turns per message. |
| `WebSocketReceiver.Receiver.ReadHeader` | components/ESPAsyncWebServer/src/AsyncWebSocket.cpp:619-643 | The header is read in all three length forms. |
| `WebSocketReceiver.Receiver.UnmaskInPlace` | components/ESPAsyncWebServer/src/AsyncWebSocket.cpp:648-651 | The chunk is unmasked in place with the key aligned to its offset in the frame. |
| `WebSocketReceiver.Receiver.UnmaskLoop` | components/ESPAsyncWebServer/src/AsyncWebSocket.cpp:648-651 | Each byte is replaced by its exclusive or with the key byte of its place in the frame. |
| `WebSocketReceiver.Receiver.OpenFrame` | components/ESPAsyncWebServer/src/AsyncWebSocket.cpp:619-643 | Between frames the header is read first; inside one nothing happens. |
| `WebSocketReceiver.Receiver.DeliverChunk` | components/ESPAsyncWebServer/src/AsyncWebSocket.cpp:645-702 | The part of the frame in this segment is delivered with its offset; a zero that the application writes behind it is undone, except behind an empty part. |
| `WebSocketReceiver.ZeroedHeader` | components/ESPAsyncWebServer/src/AsyncWebSocket.cpp:620-699 | When that zero falls on the next header, it is read as it was if and only if its frame is a continuation that is not final. |
| `WebSocketReceiver.Receiver.OneTurn` | components/ESPAsyncWebServer/src/AsyncWebSocket.cpp:618-703 | One turn of the loop consumes a non-empty part of the segment. |
| `WebSocketReceiver.Receiver.OnData` | components/ESPAsyncWebServer/src/AsyncWebSocket.cpp:615-704 | One segment has the effect of the specified receiver, also when the application writes behind its chunks, as long as no empty chunk has bytes behind it. |
| `WebSocketSegments.SegmentsOkExactly` | components/ESPAsyncWebServer/src/AsyncWebSocket.cpp:615-704 | For data frames cut into segments: every segment is processed as it should be if and only if no cut lies strictly inside a header. |
| `WebSocketSegments.FilledUnharmed` | components/ESPAsyncWebServer/src/AsyncWebSocket.cpp:645-702 | Where no frame is empty, no such zero falls on a header. |
| `WebSocketSegments.ReceivesAll` | components/ESPAsyncWebServer/src/AsyncWebSocket.cpp:615-704 | Data frames in any length form, masked or not, in any segments that cut no header, are delivered completely, in order, unmasked, with contiguous offsets per frame. |
| `WebSocketSegments.Receive` | components/ESPAsyncWebServer/src/AsyncWebSocket.cpp:615-704 | The same of the receiver object, one `_onData` call per segment; an application that writes behind its chunks must not be sent empty frames. |
| `WebSocketReceiver.TurnOnTrack` | components/ESPAsyncWebServer/src/AsyncWebSocket.cpp:618-703 | One turn delivers the next slice of the right frame and leaves the rest of the stream to come. |
| `WebSocketFrames.HeaderRoundTrip` | components/ESPAsyncWebServer/src/AsyncWebSocket.cpp:620-642 | Reading a header back gives FIN, opcode, key and length, and its own length, in all three forms. |
| `WebSocketFrames.XorAt` | components/ESPAsyncWebServer/src/AsyncWebSocket.cpp:648-651 | Masking sets a bit exactly where byte and key differ. |
| `WebSocketFrames.BitsDetermine` | components/ESPAsyncWebServer/src/AsyncWebSocket.cpp:648-651 | The bits, of which the former speaks, determine the byte. |
| `WebSocketFrames.MaskedTwice` | components/ESPAsyncWebServer/src/AsyncWebSocket.cpp:648-651 | Masking is its own inverse. |
| `WebSocket.MessageArrives` | components/ESPAsyncWebServer/src/AsyncWebSocket.cpp:324-361 | Sender and receiver together: a message cut into frames for any windows and into any segments that cut no header arrives as it was. |
| `WebSocket.MessagesArrive` | components/ESPAsyncWebServer/src/AsyncWebSocket.cpp:324-704 | A whole connection: whatever a client has sent, in any order of calls, through any windows and in any segments that cut no header, the application at the other end has exactly the messages due, in order, whole and apart; an empty message has no frame and never arrives. |
| `WebSocketMessages.MessagesReceived` | components/ESPAsyncWebServer/src/AsyncWebSocket.cpp:615-704 | For any data frames: an application that takes a message for whole where a final frame ends gets exactly the messages the frames carry. |
| `WebSocketMessages.TurnFollows` | components/ESPAsyncWebServer/README.md:1033-1043 | One turn of the receiver hands the application the next part of the right message. |
| `WebSocket.WholeFramesAccepted` | components/ESPAsyncWebServer/src/AsyncWebSocket.cpp:615-704 | Whole frames, however many to a segment, meet the receiver's assumption. |
| `CrcA.CrcIsRegisterCrc` | main/main.cpp:1938-1950 | The byte-at-a-time formula is eight clocks per byte of the reflected shift register of Annex B of ISO/IEC 14443-3, for every message. |
| `CrcA.ByteStepIsRegisterStep` | main/main.cpp:1942-1945 | One turn of the loop is eight clocks. |
| `CrcA.NibbleTrick` | main/main.cpp:1943-1945 | On a single byte the two shifts are eight clocks. |
| `CrcA.BitStepsLinear` | main/main.cpp:1938-1950 | The register is linear over exclusive or, for any number of clocks. |
| `CrcA.CrcConcat` | main/main.cpp:1938-1950 | The CRC of a concatenation continues from the CRC of its first part. |
| `CrcA.Residue` | main/main.cpp:1938-1955 | A frame checks to zero if and only if its last two bytes are the CRC of the rest, low byte first. |
| `CrcA.PairDetected` | main/main.cpp:1938-1950 | Any change confined to two neighbouring bytes changes the CRC. |
| `CrcA.BurstDetected` | main/main.cpp:1938-1950 | Every burst of up to sixteen bits changes the CRC, also one across three bytes, starting at any bit. |
| `CrcA.BurstIs` | main/main.cpp:1938-1950 | What a burst from bit k on is: the first byte may differ from that bit on, the third below it. |
| `CrcA.SeventeenBitsMissed` | main/main.cpp:1938-1950 | Seventeen bits are too many: adding the generator anywhere leaves the CRC of every message as it is. |
| `CrcA.BurstRejected` | main/main.cpp:1938-1950 | So a frame that checks to zero no longer does. |
| `CrcA.StandardExamples` | main/main.cpp:1938-1950 | The two examples of Annex B of ISO/IEC 14443-3: 00 00 gives A0 1E, 12 34 gives 26 CF. |
| `CrcA.Crc16A` | main/main.cpp:1938-1950 | The loop returns the register's two bytes, and appending them gives residue zero. |
| `CrcA.LoadGroupId` | main/main.cpp:2026-2027 | For every group id that fits the frame: the id lies at offset 8 as far as the CRC leaves it, the other bytes are kept, and the frame checks to zero. |
| `CrcA.EcpFrame` | main/main.cpp:441-441 | With a group id of eight bytes the frame is the fixed head, the id and the CRC. |
| `AccessLog.RunMatches` | main/access_log_service.c:102-376 | Over every interleaving of enqueue, drain of one record, upload, failure, reboot and loss of power between any two flash writes, but for the four harmful places: the slots hold exactly the suffix, at most 200 long, of all records ever persisted; a record leaves only as the oldest, by an accepted upload or overwritten by 200 newer ones; and the backend has exactly the posted ones. |
| `AccessLog.RunExactlyOnce` | main/access_log_service.c:227-279 | If moreover no power is lost between an accepted post and the end of the removal, the backend gets each uploaded record once and in the order of storage. |
| `AccessLog.NeverRepeatsExactly` | main/access_log_service.c:227-279 | From any state of the log: no harmless future without such a loss posts a record twice if and only if the oldest record of the ring has not been accepted already. |
| `AccessLogFlash.PersistCutExactly` | main/access_log_service.c:118-133 | Exactly when a persist cut after any number of its writes leaves the old or the new ring: always if the ring was not full; on a full ring not behind the erase, and behind the new record only among equal records; always once the head is written. |
| `AccessLogFlash.PersistCutLeaves` | main/access_log_service.c:118-133 | What is there instead: behind the erase no ring and nothing to upload, behind the new record that record in the place of the oldest. |
| `AccessLogFlash.PopCutExactly` | main/access_log_service.c:187-193 | Exactly when a removal cut after any number of its writes leaves the old or the new ring: not behind the erase; behind the new head only among equal records, one of them left behind the newest by an earlier loss of power. |
| `AccessLogFlash.PopCutLeaves` | main/access_log_service.c:187-193 | What is there instead: behind the erase no ring at all; behind the new head a ring if and only if such a record was left behind the newest, which then comes to life. |
| `AccessLog.LossRepeats` | main/access_log_service.c:260-270 | Failing input: power lost between the accepted post and the first write of the removal sends the record twice. |
| `AccessLog.NothingSent` | main/access_log_service.c:187-193 | Failing input: power lost behind the erase of a removal leaves no ring, and uploads send nothing. |
| `AccessLog.NewestFirst` | main/access_log_service.c:118-133 | Failing input: power lost on a full ring behind the new record sends it before all older ones. |
| `AccessLog.LostRecordReturns` | main/access_log_service.c:130-193 | Failing input: a persist and then a removal cut short bring a lost record into the place of the removed one. |
| `AccessLog.HarmlessPersist` | main/access_log_service.c:118-133 | For a record that is not in the ring: the cuts called harmless are exactly those that leave the old or the new ring in a persist ... |
| `AccessLog.HarmlessPop` | main/access_log_service.c:187-193 | ... and in a removal. |
| `AccessLog.EventExactlyOnce` | main/access_log_service.c:227-279 | One event keeps posts and uploads equal if and only if it does not cut the removal of a record short. |
| `AccessLogFlash.BlockedUntilFull` | main/access_log_service.c:102-171 | After such an erase, uploads are blocked if and only if not more than 200 records are or come in behind; after that the ring is in order again and only the erased record is missing. |
| `AccessLogFlash.Mends` | main/access_log_service.c:102-143 | Whatever the power did before, 200 whole persists later the ring is exactly those records. |
| `AccessLog.NothingInvented` | main/access_log_service.c:102-376 | Over every run at all, harmful losses of power included: nothing is sent or stored that was not enqueued, and the RAM queue keeps its bound. |
| `AccessLog.RoundSends` | main/access_log_service.c:281-298 | For any answers of the backend, a round sends the records that ring and queue held, from the oldest on, as many as are accepted in a row; the rest stays in the ring. |
| `AccessLog.RoundUploadsAll` | main/access_log_service.c:281-298 | A round with a willing backend sends what ring and queue held, but for what the drain overwrites, once each and oldest first, and empties the ring. |
| `AccessLog.DrainedRing` | main/access_log_service.c:216-225 | Draining moves the whole RAM queue into the ring in order, and drops the oldest exactly beyond 200. |
| `AccessLog.StepMatches` | main/access_log_service.c:102-279 | Each harmless event does to the device what it means for its history. |
| `AccessLogFlash.KeysDiffer` | main/access_log_service.c:68-71 | Different slots have different keys. |
| `AccessLogFlash.KeyNames` | main/access_log_service.c:68-71 | The names under which a lock in use has its records. |
| `AccessLogFlash.PersistCutCells` | main/access_log_service.c:118-133 | The slots in order from the head on, after any number of the writes of a persist, around the end of the slots too. |
| `AccessLogFlash.PopCutCells` | main/access_log_service.c:187-193 | Likewise for a removal. |
| `AccessLog.Service.constructor` | main/access_log_service.c:301-333 | Empty storage is an empty log. |
| `AccessLog.Service.LoadMeta` | main/access_log_service.c:82-93 | Missing head and count read as zero, values out of range are clamped. |
| `AccessLog.Service.SaveMeta` | main/access_log_service.c:95-100 | Head and then count are written, as far as the power lasts. |
| `AccessLog.Service.PersistRecord` | main/access_log_service.c:102-143 | From any contents of the store: the writes of a persist in their order, as far as the power lasts. |
| `AccessLog.Service.PeekRecord` | main/access_log_service.c:145-171 | The record in the oldest slot, or none when the count is zero or the slot is empty. |
| `AccessLog.Service.PopRecord` | main/access_log_service.c:173-197 | The writes of a removal in their order, as far as the power lasts; an empty ring reports so. |
| `AccessLog.Service.DrainRecord` | main/access_log_service.c:219-220 | The first record of the queue is taken out and persisted. |
| `AccessLog.Service.DrainRamQueue` | main/access_log_service.c:216-225 | The loop has the effect of the abstract drain. |
| `AccessLog.DrainedRun` | main/access_log_service.c:216-225 | A drain is a run of single records, so that anything may happen in between. |
| `AccessLog.Service.UploadOne` | main/access_log_service.c:227-279 | A record is removed only after its post was accepted; otherwise nothing changes. |
| `AccessLog.Service.Round` | main/access_log_service.c:285-298 | One round drains, then uploads until the first failure or the end of the ring, draining after every success; it is also a run of the event model. |
| `AccessLog.CopyTrunc` | main/access_log_service.c:45-56 | The longest beginning of the text that fits with its closing zero. |
| `AccessLog.Service.EnqueueRecord` | main/access_log_service.c:350-376 | The truncated record joins the end of the RAM queue unless sixteen are waiting; what fits its field is queued as given; without a clock it is marked as having no time. |
| `AccessLog.Service.PersistUntilPowerLoss` | main/access_log_service.c:102-143 | Power goes after any number of the writes of a persist; the RAM queue is lost. |
| `AccessLog.Service.PopUntilPowerLoss` | main/access_log_service.c:227-279 | Power goes after an accepted post and any number of the writes of the removal. |
| `AccessLog.Service.Restart` | main/access_log_service.c:301-333 | A restart loses the RAM queue and keeps the store. |
| `AccessLog.Service.OccurAll` | main/access_log_service.c:102-376 | The service through every run of events, losses of power between any two flash writes included, is the device; and through a harmless one its history. |
| `UidStore.Store.PerformAll` | main/main.cpp:2482-2990 | Over every run of learning, deleting, deactivating and activating, the keys stay hole-free, free of duplicates and absent beyond the count, and the two lists mean the two abstract sets. |
| `UidStore.StoredByHistory` | main/main.cpp:2482-2525 | A card is stored after a run if and only if it was learned and not deleted since. |
| `UidStore.OffByHistory` | main/main.cpp:2593-2747 | A card is deactivated after a run if and only if it was deactivated and not activated since, whatever was deleted and learned in between. |
| `UidStore.DoorByHistory` | main/main.cpp:3221-3257 | After any run from an empty store the door opens if and only if the card was learned and not deleted since, and not deactivated or activated since. |
| `UidStore.VisitAfter` | main/main.cpp:2482-3257 | The same of the store object: any run, and then the card at the door. |
| `UidStore.ListsMeanSets` | main/main.cpp:2482-2875 | Appending and removing on the two ordered lists is adding and removing on the two sets, and entries stay distinct. |
| `UidStore.KeyNames` | main/main.cpp:2482-2747 | The names under which a lock in use has its cards and counts. |
| `UidStore.KeysDiffer` | main/main.cpp:2482-2747 | Keys of different lists or positions never collide. |
| `UidStore.WithoutAt` | main/main.cpp:2749-2875 | Removing an entry from a list without duplicates is cutting out its position. |
| `UidStore.CutItem` | main/main.cpp:2749-2875 | The shifted keys of a list without duplicates hold the list without the deleted card. |
| `UidStore.Store.constructor` | main/main.cpp:2482-2525 | An empty store is two empty lists. |
| `UidStore.Store.Contains` | main/main.cpp:2878-2990 | The scan finds the card exactly when some key of the list holds it, holes allowed. |
| `UidStore.Store.ListUIDs` | main/main.cpp:2527-2591 | All entries in order, holes skipped. |
| `UidStore.Store.Append` | main/main.cpp:2482-2525 | The card takes the next key and the count grows; the other list is untouched. |
| `UidStore.Store.FirstIndex` | main/main.cpp:2749-2875 | The first position that holds the card, or none. |
| `UidStore.Store.ShiftDown` | main/main.cpp:2749-2875 | Every later key moves down by one, a hole like a value; the other list is untouched. |
| `UidStore.Store.DeleteUID` | main/main.cpp:2749-2875 | The first occurrence is cut out of the list, whatever holes it has; an unknown card changes nothing. |
| `UidStore.Store.Compact` | main/main.cpp:2593-2695 | The in-place loop packs the surviving entries, in order and without holes, to the front. |
| `UidStore.Store.EraseFrom` | main/main.cpp:2593-2695 | The keys behind the packed list are erased, and only those. |
| `UidStore.Store.ActivateUID` | main/main.cpp:2593-2695 | Every occurrence goes, holes are closed, the order is kept; the empty name is refused. |
| `UidStore.Store.DeactivateUID` | main/main.cpp:2697-2747 | The card is appended unless it is there; the empty name is refused. |
| `UidStore.Store.PresentCard` | main/main.cpp:3221-3257 | The door opens if and only if the card is stored and not deactivated, and refuses it if and only if it is stored and deactivated; an unknown card is learned exactly in learning mode. |
| `UidStore.Store.DeleteCard` | main/main.cpp:2749-2875 | On a store in order, deletion is the list operation. |
| `UidStore.Store.DeactivateCard` | main/main.cpp:2697-2747 | On a store in order, deactivation is the list operation. |
| `UidStore.Store.ActivateCard` | main/main.cpp:2593-2695 | On a store in order, activation is the list operation. |
| `Decimals.ValueOfDecimal` | main/main.cpp:2482-2525 | A number written in base ten reads back as itself; the numbered keys rest on it. |
| `AsyncTcp.EventQueue.RemoveEventsWithArg` | components/AsyncTCP/src/AsyncTCP.cpp:118-152 | The rotation ends and leaves exactly the other packets in their order; each matching packet is freed once. The result tells whether anything is left. |
| `AsyncTcp.KeptOrFreed` | components/AsyncTCP/src/AsyncTCP.cpp:118-152 | Every packet is either kept or freed, none twice. |
| `AsyncTcp.SlotTable.constructor` | components/AsyncTCP/src/AsyncTCP.cpp:83-93 | All slots are free with stamp 1, the next stamp is 1. |
| `AsyncTcp.SlotTable.Allocate` | components/AsyncTCP/src/AsyncTCP.cpp:821-834 | A free slot with the smallest stamp is taken, the last of several; it fails only when none is free; a slot is 0 exactly when one live client holds it. |
| `AsyncTcp.SlotTable.Take` | components/AsyncTCP/src/AsyncTCP.cpp:830-832 | Taking a free slot keeps every other client and slot. |
| `AsyncTcp.SlotTable.Free` | components/AsyncTCP/src/AsyncTCP.cpp:836-842 | The slot gets the next stamp and the invariant holds, except that with the 32-bit counter wrapped to 0 the slot stays marked as held. |
| `BasicResponse.Response.constructor` | components/ESPAsyncWebServer/src/WebResponses.cpp:169-179 | The content is what will be sent. |
| `BasicResponse.Response.Respond` | components/ESPAsyncWebServer/src/WebResponses.cpp:181-213 | In all five branches written bytes and pending bytes together are head and body, and as much is written as fits; only a head that fits exactly before a body waits. |
| `BasicResponse.Response.Ack` | components/ESPAsyncWebServer/src/WebResponses.cpp:215-240 | Each acknowledgement writes the next pending bytes, as many as fit; the end is reached exactly when everything is written and acknowledged, and open windows make progress. Content length less sent length is the length of the content until the last chunk is written, which is not counted as sent. |
| `BasicResponse.Response.Exchange` | components/ESPAsyncWebServer/src/WebResponses.cpp:181-240 | For every sequence of open windows head and body go out once, in order, and the response ends. |
| `Pn532.WriteFrame` | components/PN532/src/PN532_SPI.cpp:315-354 | Both checksums vanish modulo 256 for every header and body; the result is the manual's frame exactly when the length fits its byte. |
| `Pn532.FrameSums` | components/PN532/src/PN532_SPI.cpp:321-346 | The two complements make the length and the data sum vanish. |
| `Pn532.Spi.ReadResponse` | components/PN532/src/PN532_SPI.cpp:176-299 | The stream of bytes decides as the specification does; an accepted body is at the start of the buffer and the rest is untouched. |
| `Pn532.Spi.ReadBody` | components/PN532/src/PN532_SPI.cpp:224-294 | From the frame identifier on: error frame, wrong command, no space, wrong checksum, or the body. |
| `Pn532.Spi.CopyBody` | components/PN532/src/PN532_SPI.cpp:265-272 | The loop leaves the body at the start of the buffer, the rest untouched, and the 8-bit sum of all of it. |
| `Pn532.NormalAccepted` | components/PN532/src/PN532_SPI.cpp:160-299 | Every well-formed normal reply that fits is accepted with exactly its body, whatever its postamble. |
| `Pn532.ExtendedAccepted` | components/PN532/src/PN532_SPI.cpp:202-216 | Likewise every extended reply. |
| `Pn532.NormalTooLong` | components/PN532/src/PN532_SPI.cpp:253-263 | A well-formed reply whose body does not fit gives the code for that. |
| `Pn532.ErrorFrame` | components/PN532/src/PN532_SPI.cpp:231-240 | The error frame of section 6.2.1.5 gives its own code. |
| `Pn532.OtherCommand` | components/PN532/src/PN532_SPI.cpp:241-250 | A well-formed reply to another command is an invalid frame. |
| `Pn532.AcceptedNormal` | components/PN532/src/PN532_SPI.cpp:160-299 | Conversely, an accepted normal reply is the well-formed frame of its body if and only if LEN is at least 2. |
| `Pn532.AcceptedExtended` | components/PN532/src/PN532_SPI.cpp:202-216 | And an accepted extended reply the well-formed extended frame if and only if its length is at least 2. |
| `Pn532.OneWrongByteRejected` | components/PN532/src/PN532_SPI.cpp:176-299 | Changing any one byte before the postamble of a normal reply gives a negative code, but for one byte of the longest such reply. |
| `Pn532.NormalTakenForExtended` | components/PN532/src/PN532_SPI.cpp:202-216 | That one, LCS changed to 0xFF at LEN 255, is accepted if and only if the bytes that follow happen to be an extended reply. |
| `Pn532.OneWrongByteExtended` | components/PN532/src/PN532_SPI.cpp:176-299 | For one wrong byte before the postamble of an extended reply: it is accepted if and only if the second 0xFF became 1, the length is 0xD500 plus the answer code, there is room for 253 bytes and the first 251 bytes sum up right. |
| `Mpr121.Device.constructor` | components/mpr121/mpr121.c:53-62 | A powered chip is stopped and the driver knows it. |
| `Mpr121.Device.SetRegister` | components/mpr121/mpr121.c:64-87 | The register is written with the chip stopped if it must be; the nested calls of stop and run leave ECR as it was, and the flag agrees with the chip. |
| `Mpr121.Device.Run` | components/mpr121/mpr121.c:199-202 | The saved ECR is restored, nothing else changes. |
| `Mpr121.Device.Stop` | components/mpr121/mpr121.c:204-208 | ECR is saved and its electrode bits cleared, nothing else changes. |
| `Mpr121.Device.WriteSettings` | components/mpr121/mpr121.c:289-320 | All thirty settings are in their registers and no other register changed. |
| `Mpr121.Device.ApplySettings` | components/mpr121/mpr121.c:285-330 | Whatever the mode before, even with a stale flag, the chip ends running on the default ECR with default settings and thresholds, listed register by register; no other register changes and every configuration write happened in stop mode. |
| `Mpr121.Device.SetThreshold` | components/mpr121/mpr121.c:511-538 | One threshold register is set, or none for an electrode above 12. |
| `Mpr121.Device.SetThresholdAll` | components/mpr121/mpr121.c:479-538 | All thirteen thresholds are set with one stop and one restart; ECR and all other registers are as before. |
| `Mpr121.Device.SoftReset` | components/mpr121/mpr121.c:210-241 | The chip has its reset values and reads back as it should, the driver's flag is left behind. |
| `Mpr121.Device.Begin` | components/mpr121/mpr121.c:109-145 | From any state the driver ends in step with the chip, running, with the requested thresholds and the default settings; every other register has its reset value. |
| `Mpr121.Device.SetGlobalCDC` | components/mpr121/mpr121.c:641-645 | Only the current field of AFE1 changes, and not for values above 63. |
| `Mpr121.Device.SetGlobalCDT` | components/mpr121/mpr121.c:654-656 | Only the charge time field of AFE2 changes. |
| `Mpr121.Device.SetSamplePeriod` | components/mpr121/mpr121.c:968-970 | Only the sample interval field of AFE2 changes. |
| `Mpr121.Device.SetFFI` | components/mpr121/mpr121.c:973-975 | Only the filter field of AFE1 changes. |
| `Mpr121.Device.SetSFI` | components/mpr121/mpr121.c:978-980 | Only the second filter field of AFE2 changes. |
| `Mpr121.Device.SwitchLock` | components/mpr121/mpr121.c:621-636 | The switch over the modes. |
| `Mpr121.Device.SetCalibrationLock` | components/mpr121/mpr121.c:613-639 | On a running chip ECR becomes what the switch says and the chip runs on; a stopped chip keeps its ECR and the switch is for the saved one; nothing happens before initialisation. |
| `Mpr121.Device.PerformAll` | components/mpr121/mpr121.c:64-87 | Over every run of calls after `MPR121_begin`, soft resets and raw register writes included, every configuration write happens in stop mode; without resets the driver's flag equals the chip's mode at the end. |
| `Mpr121.Device.Perform` | components/mpr121/mpr121.c:64-87 | Each single call keeps that. |
| `Mpr121.CalibrationLockFields` | components/mpr121/mpr121.c:613-639 | The lock bits become the mode and the other bits stay, for every ECR, if and only if the mode is one of the first three; mode 3 sets both proximity bits and nothing else, any other mode changes nothing. |
| `ServerSentEvents.EventArrives` | components/ESPAsyncWebServer/src/AsyncEventSource.cpp:28-110 | Between events, the generated text is read as exactly one event with the given type, id, retry time and the message's lines joined by line feeds, if and only if the event type holds no line break. |
| `ServerSentEvents.StreamArrives` | components/ESPAsyncWebServer/src/AsyncEventSource.cpp:28-110 | A stream of generated texts is read as exactly one event per message, in order, an id staying in force until the next one, if and only if no event type in it holds a line break. |
| `ServerSentEvents.DataIsMessage` | components/ESPAsyncWebServer/src/AsyncEventSource.cpp:48-107 | The data is the very message if and only if it has no carriage return and does not end in a line feed. |
| `ServerSentEvents.DataWithoutReturns` | components/ESPAsyncWebServer/src/AsyncEventSource.cpp:48-107 | For messages without a carriage return the data is the message but for one line feed at its end. |
| `LineRules.LineRulesAgree` | components/ESPAsyncWebServer/src/AsyncEventSource.cpp:52-107 | For every message: the generator finds the lines of the standard if and only if no stretch of alternating line breaks begins with LF and ends with CR; it never finds more. |
| `LineRules.FeedThenReturn` | components/ESPAsyncWebServer/src/AsyncEventSource.cpp:77-82 | A failing input: "a\n\rb" has the lines "a" and "b" for the generator, "a", "" and "b" for the standard. |
| `LineRules.FeedReturnFeed` | components/ESPAsyncWebServer/src/AsyncEventSource.cpp:77-82 | Not every "\n\r" loses a line: both find "a", "" and "b" in "a\n\r\nb". |
| `ServerSentEvents.FieldsWait` | components/ESPAsyncWebServer/src/AsyncEventSource.cpp:31-47 | Fields without a message dispatch nothing and wait for the next message. |
| `ServerSentEvents.GenerateEventMessage` | components/ESPAsyncWebServer/src/AsyncEventSource.cpp:28-110 | The text is the field lines and then the data lines with their closing blank line. |
| `ServerSentEvents.GenerateLines` | components/ESPAsyncWebServer/src/AsyncEventSource.cpp:48-107 | The do-while loop writes one data line per line of the message, and one blank line however the message ends. |
| `ServerSentEvents.NextLine` | components/ESPAsyncWebServer/src/AsyncEventSource.cpp:53-88 | The two searches and the comparison of pointers find the next break and its length. |
| `ServerSentEvents.GenerateFields` | components/ESPAsyncWebServer/src/AsyncEventSource.cpp:31-47 | The three optional fields, a zero retry or id left out. |
| `ServerSentEvents.Message.Ack` | components/ESPAsyncWebServer/src/AsyncEventSource.cpp:131-143 | A message takes what it still needs and hands the rest on: no acknowledged byte is lost. |
| `ServerSentEvents.Client.OnAck` | components/ESPAsyncWebServer/src/AsyncEventSource.cpp:202-210 | Finished messages leave from the front, only the new front may be half done, and the outstanding bytes fall by exactly what arrived. |
| `ServerSentEvents.Client.DropFinished` | components/ESPAsyncWebServer/src/AsyncEventSource.cpp:244-247 | The leading finished messages leave, nothing else changes. |
| `DigitalKey.UnpadPad` | components/HK-HomeKit-Lib/src/crypto/DigitalKeySecureContext.cpp:26-66 | Unpadding a padded message returns it, for every message, also one that ends in 0x80 or zeros. |
| `DigitalKey.UnpadIs` | components/HK-HomeKit-Lib/src/crypto/DigitalKeySecureContext.cpp:51-66 | Exactly which padded texts are read as a given message: it ends at the last flag byte, or, without any, the last byte is lost. |
| `DigitalKey.PaddedLength` | components/HK-HomeKit-Lib/src/crypto/DigitalKeySecureContext.cpp:26-35 | The padded length is a multiple of 16, and the least possible if and only if the flag byte does not complete a block. |
| `DigitalKey.PadMode3` | components/HK-HomeKit-Lib/src/crypto/DigitalKeySecureContext.cpp:26-35 | The filled buffer is the message, the flag byte 0x80 and zeros. |
| `DigitalKey.UnpadMode3` | components/HK-HomeKit-Lib/src/crypto/DigitalKeySecureContext.cpp:51-66 | The scan from the end keeps what the specification keeps. |
| `DigitalKey.OpenFrame` | components/HK-HomeKit-Lib/src/crypto/DigitalKeySecureContext.cpp:185-336 | A frame opens to the very message from counters that agree modulo 256; the counter moves unless the message is empty. |
| `DigitalKey.TakenExactly` | components/HK-HomeKit-Lib/src/crypto/DigitalKeySecureContext.cpp:213-234 | A frame is taken if and only if its MAC is right and it holds whole blocks, at least one; any other yields nothing and leaves the counter. |
| `DigitalKey.WrongMacRefused` | components/HK-HomeKit-Lib/src/crypto/DigitalKeySecureContext.cpp:226-229 | Every frame with one wrong byte in its MAC is refused. |
| `DigitalKey.VectorsDiffer` | components/HK-HomeKit-Lib/src/crypto/DigitalKeySecureContext.cpp:253-284 | Initial vectors repeat exactly every 256 messages, and those of commands and responses never meet. |
| `DigitalKey.SessionDecrypts` | components/HK-HomeKit-Lib/src/crypto/DigitalKeySecureContext.cpp:185-336 | In every session, commands and responses arrive as sent and both counters advance in step. |
| `DigitalKey.SecureContext.constructor` | components/HK-HomeKit-Lib/src/crypto/DigitalKeySecureContext.cpp:164-169 | The three keys are cut from the volatile key, the counter starts at zero. |
| `DigitalKey.SecureContext.Encrypt` | components/HK-HomeKit-Lib/src/crypto/DigitalKeySecureContext.cpp:253-284 | Padded, encrypted under the vector that the counter gives, which is encrypted itself; nothing for nothing. |
| `DigitalKey.SecureContext.Decrypt` | components/HK-HomeKit-Lib/src/crypto/DigitalKeySecureContext.cpp:304-336 | Decrypted and unpadded, the counter advancing only then. |
| `DigitalKey.SecureContext.EncryptCommand` | components/HK-HomeKit-Lib/src/crypto/DigitalKeySecureContext.cpp:185-200 | Ciphertext and eight bytes of MAC, the counter unchanged. |
| `DigitalKey.SecureContext.DecryptResponse` | components/HK-HomeKit-Lib/src/crypto/DigitalKeySecureContext.cpp:213-234 | The MAC is checked first: a response with a wrong MAC yields nothing and leaves the counter, which moves if and only if the MAC is right and there is a whole number of blocks, at least one. |

## Left out

- TLV8: BER lengths in `unpack`; `pack_init(it)`, `print(it)` and `osprint(it)` with one argument, which rely on the evaluation order of `it1, it1++`; `add` without a value pointer, which leaves bytes undefined; name tables and printing in hexadecimal.
- Tlv8.Tlv.Unpack: does not model BER lengths (`berInput`), which no list of this model sets.
- Multipart: bytes are modelled as `char`; malloc failure; quoting rules beyond what the code slices; url-encoded and plain bodies; request and header lines.
- WebSocketSender.WebSocketClient.OnAck: does not model the control queue, because a control frame's acknowledgement is subtracted without being counted, so that the accounting is exact for message frames only.
- WebSocketSender.WebSocketClient.RunQueue: leaves out the branch that sends control frames, for the same reason.
- WebSocketReceiver.Receiver.DeliverChunk: leaves out what is done for control opcodes and the number of the frame in its message.
- WebSocketSegments.ReceivesAll: is about data frames, because control frames are answered or dropped and not delivered.
- WebSocket: control frames, failed `add` and `send`, `AsyncWebSocketMultiMessage`, text helpers, the message numbers of fragments.
- WebSocketReceiver.Receiver.OnData: does not model headers cut by a segment, because the code reads past the segment there.
- Access log and cards: error returns of the store; the limit of 15 characters on key names; 32-bit counts.
- UidStore.Store.PerformAll: takes each operation on the card lists as one step, without a loss of power inside it.
- UidStore.Store.PresentCard: leaves out the guard on cards handled a moment ago, beeps, lights, the message to the backend and the HomeKey exchange that follows for an unknown card.
- CrcA.LoadGroupId: is about group ids of up to ten bytes, what the frame has room for; the code copies whatever length is stored.
- AsyncTcp: the event loop, callbacks and locks; copying of clients.
- BasicResponse: the text of the head; template expansion and `AsyncAbstractResponse`.
- Pn532.Spi.ReadResponse: models the reply from the first byte on, without waiting, time-out and bus errors.
- Pn532: acknowledgement frames and the commands above the frame layer.
- Mpr121.Device.SoftReset: leaves out the error bits of a chip that does not read back as it should.
- Mpr121.Device.Begin: leaves out the interrupt pin.
- MPR121: error bits other than "not initialised", proximity mode, per-electrode charge settings, automatic configuration and the digital pins.
- Server-sent events: the order of sending in `_runQueue`, where a small message may overtake a large one; the byte order mark at the start of a stream.
- ServerSentEvents.Client.OnAck: covers the loop of `_onAck` and the removal of finished messages, not the sending that follows.
- DigitalKey.SecureContext.DecryptResponse: needs at least the eight bytes of a MAC, because the code reads that many without checking; the counter does not overflow.
- HomeKey authentication, key derivation and CBOR; ESP-NOW, OTA, keypad, lights and other user interface; web sockets to the backend. They are calls into libraries or orchestration of tasks.
