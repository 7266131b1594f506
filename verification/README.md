# Verified models of the application server's libraries and user store

This project models four parts of the application server and proves what they are for:

- the streaming protocol code of mongoose over its growable buffer `mbuf`: WebSocket framing, masking and
  reassembly, chunked bodies collapsed in place, the part-data states of the multipart machine, incremental SHA-1,
  HMAC-SHA1 and MD5, base64, and removal of dot segments in place;
- its CoAP codec with the linked option list;
- the reader and the two writers of jsoncpp;
- the user store: one string-keyed map that holds records and the id, name, password and skill indexes, and the
  searches over it.

Every part has two layers. A specification layer works on byte sequences, values or maps: functions, an invariant,
and lemmas about all inputs, all arrival splits or all runs. An imperative layer has the form of the source: classes
with its fields, arrays, linked nodes, loops and cursors. Each of its methods is proved to do what a function of the
specification says to the abstract state, which is what the lemmas are about. Ghost fields (`head`, `body`, `pending`,
`nodes`) name the layout of a buffer or a list; `Valid()` ties them to the real fields.

Files, by component: `Bytes`, `Endian`, `Bits`, `Hex`, `Decimals`, `Wrappers` (shared); `Mbuf`; `UriPath`; `WebSocketFrames`,
`WebSocketReassembly`, `WebSocketSizes`, `WebSocketConnection`; `ChunkedBody`, `ChunkedConnection`; `MultipartPart`,
`MultipartConnection`; `BlockHash`, `Sha1`, `Md5`; `Base64`; `CoapFormat`, `CoapCodec`, `CoapLaws`, `CoapOptions`,
`CoapMessage`; `JsonNumbers`, `JsonStrings`, `JsonValue`, `JsonReader`, `JsonLexis`, `JsonTokens`, `JsonText`,
`JsonStyled`, `JsonRoundTrip`, `JsonMeaning`, `JsonDocuments`, `JsonWriters`, `JsonParser`; `MailLists`, `UserKeys`,
`UserIndex`, `UserOps`, `UserUpdates`, `UserTyping`, `UserRuns`, `UserEffects`, `UserLimits`, `PersonStore`, `UserSearch`.

The functions of the specification layer are held down from outside: bits, digits, letters, key spellings, field
layouts and small documents are stated by literal bytes and numbers, against the standards where there is one.

## Where the code falls short of the plain property

The model follows the code. Where a property does not hold of it for all inputs, the exact condition is proved:

- A fragmented WebSocket message is delivered if and only if its data is shorter than 2^32 bytes: its size is kept in
  32 bits and wraps (`WebSocketSizes.DeliveredExactly`). Of a longer one the handler is given the first bytes, as many
  as the size modulo 2^32, and the others are read as the bytes that follow (`WebSocketSizes.TooLongMessage`).
- A chunk's bounds lie inside the bytes received if and only if its size does not wrap the 64-bit index
  (`ChunkedBody.BoundsInside`, `ChunkedBody.WrappedChunk`).
- A part of a multipart body is delivered whole if and only if the boundary string first occurs behind the body's
  delimiter; the machine looks for the bare boundary string (`MultipartPart.PayloadsAreBody`). With fewer than four
  bytes before the boundary the handler is told of a negative number of bytes (`MultipartPart.BoundaryInFront`).
- A composed CoAP message parses back if and only if its option numbers and value lengths fit in 16 bits, although
  compose accepts up to 65804 (`CoapCodec.ParseComposed`, `CoapCodec.LongNumberLost`). Compose may reserve more bytes
  than it writes, and reserves exactly as many if and only if numbers and deltas share their size classes
  (`CoapCodec.ReservedCoversWritten`).
- SHA-1's update copies only into its buffer if and only if fill and length add up to less than 2^32
  (`Sha1.CopiesInside`, `Sha1.CopyLeaves`). MD5's length field is right if and only if the lengths of the updates, each
  modulo 2^32, add up to the message's length modulo 2^61 (`Md5.LengthFieldRight`), for one update if and only if bits
  32 to 60 of its length are zero (`Md5.CountedRight`).
- The reader returns integers above 2^31 - 1 with the unsigned tag, so JSON values come back up to the int/uint tag;
  they come back if and only if they are nested at most 1000 deep (`JsonRoundTrip.FastRoundTrip`).
- StyledWriter cuts keys at their first NUL; its document means the same as FastWriter's if and only if no key has one
  (`JsonRoundTrip.StyledAgreesWithFast`).
- The indexes of the user store agree with the records after savePerson if and only if the id and the name key are
  free, and the profile has no skill or its mail is neither empty nor has a comma and no skill is named twice
  (`UserOps.SavedInv`); after updateUser if and only if nothing is thrown, the name key is the old one or free and the
  new skills fit likewise (`UserUpdates.UpdatedInv`); after deletePerson if and only if nothing is thrown
  (`UserUpdates.DeletedInv`). updateUser and deletePerson throw if and only if a skill they drop is named twice in the
  record and listed for this mail alone. `UserRuns.RunAgrees` is the condition for whole runs; `UserLimits` has failing
  profiles.

## Model

| member | source | states |
|---|---|---|
| MemoryBuffer.Mbuf.Insert | ApplicationServer/src/Mongoose/mongoose.c:1005-1035 | inserting puts the bytes at the offset, in place when the capacity allows (the memmove overlaps) and into a grown buffer otherwise; on a failed allocation nothing changes and 0 is returned |
| MemoryBuffer.Mbuf.Append | ApplicationServer/src/Mongoose/mongoose.c:1037-1039 | appended bytes follow the contents; a refused allocation leaves them as they were |
| MemoryBuffer.Mbuf.Reserve | ApplicationServer/src/Mongoose/mongoose.c:1005-1039 | appending from NULL makes room of unspecified contents behind unchanged bytes |
| MemoryBuffer.Mbuf.Remove | ApplicationServer/src/Mongoose/mongoose.c:1041-1046 | removal takes exactly the first n bytes, and is ignored when there are fewer |
| MemoryBuffer.Mbuf.Resize | ApplicationServer/src/Mongoose/mongoose.c:987-999 | a resize never loses contents; a size below the length in use is refused |
| MemoryBuffer.Mbuf.Trim | ApplicationServer/src/Mongoose/mongoose.c:1001-1003 | trimming keeps the contents and, if granted, leaves no spare room |
| UriPath.WalkIsRfc | ApplicationServer/src/Mongoose/mongoose.c:3649-3681 | walking a path component by component is the loop of section 5.2.4 of RFC 3986, for every remaining input and output |
| UriPath.WalkNormalizes | ApplicationServer/src/Mongoose/mongoose.c:3649-3681 | for every path that starts with a slash the component walk gives the remove_dot_segments result |
| UriPath.NormalizeInPlace | ApplicationServer/src/Mongoose/mongoose.c:3649-3681 | with output aliasing input the rewritten prefix is exactly the RFC 3986 result; a path without a leading slash is refused untouched |
| UriPath.WalkInPlace | ApplicationServer/src/Mongoose/mongoose.c:3658-3676 | through the whole loop the write cursor never overtakes the read cursor and unread bytes are unchanged |
| UriPath.BacktrackCursor | ApplicationServer/src/Mongoose/mongoose.c:3667-3669 | the two cursor adjustments for ".." drop exactly the last segment written |
| UriPath.ParseComponent | ApplicationServer/src/Mongoose/mongoose.c:3521-3531 | a component ends at the first separator or at the end |
| UriPath.NormalizeTwice | ApplicationServer/src/Mongoose/mongoose.c:3649-3681 | a second normalisation changes nothing |
| UriPath.RfcExamples | ApplicationServer/src/Mongoose/mongoose.c:3649-3681 | the two examples of section 5.2.4 of RFC 3986, byte by byte |
| WebSocketFrames.MaskTwice | ApplicationServer/src/Mongoose/mongoose.c:4262-4268 | masking twice with one key gives the data back |
| Bits.XorAt | ApplicationServer/src/Mongoose/mongoose.c:4151-4153 | exclusive or of bytes by its bits: for every k below 8, bit k of the result is the sum of the two bits without carry |
| WebSocketFrames.MaskAt | ApplicationServer/src/Mongoose/mongoose.c:4149-4154 | each bit of a masked byte is the sum of the data bit and the bit of the key byte at the index modulo 4, without carry |
| WebSocketFrames.MaskZero | ApplicationServer/src/Mongoose/mongoose.c:4149-4154 | a key of zeros leaves any data as it is |
| WebSocketFrames.HeadFields | ApplicationServer/src/Mongoose/mongoose.c:4225-4260 | a printed header by its fields: flags, mask bit, and the length in 7, 16 or 64 bits big-endian (section 5.2 of RFC 6455) |
| WebSocketFrames.HelloFrame | ApplicationServer/src/Mongoose/mongoose.c:4225-4282 | the masked "Hello" of section 5.7 of RFC 6455, byte by byte |
| WebSocketFrames.HeadOfWire | ApplicationServer/src/Mongoose/mongoose.c:4106-4141 | whatever has arrived of a printed masked frame, the header reader announces either nothing yet or exactly that frame's lengths |
| WebSocketReassembly.WholeFrameTaken | ApplicationServer/src/Mongoose/mongoose.c:4106-4190 | one delivery takes one whole frame off the buffer and does to the reassembly record what the protocol asks: begin it, extend it, or hand the message over |
| WebSocketReassembly.PartialFrameWaits | ApplicationServer/src/Mongoose/mongoose.c:4139-4143 | until the last byte of a frame has arrived a delivery changes nothing |
| WebSocketReassembly.StepShrinks | ApplicationServer/src/Mongoose/mongoose.c:4106-4190 | every delivery that takes a frame leaves fewer unparsed bytes, so the delivery loop ends |
| WebSocketReassembly.DrainTakesWholeFrames | ApplicationServer/src/Mongoose/mongoose.c:4321-4331 | the delivery loop takes every whole frame that has arrived, in order, and keeps the rest |
| WebSocketReassembly.EveryMessageOnce | ApplicationServer/src/Mongoose/mongoose.c:4106-4190 | every stream of masked client messages, in any fragments and any arrivals, reaches the handler message by message, each once and complete, and leaves the buffer empty (sections 5.2 to 5.4 of RFC 6455) |
| WebSocketReassembly.ExpectedForm | ApplicationServer/src/Mongoose/mongoose.c:4183-4190 | what is expected of a message: its own bytes and flags, and a control frame exactly for opcodes 8 to 15 |
| WebSocketReassembly.HelloDelivered | ApplicationServer/src/Mongoose/mongoose.c:4106-4190 | the masked "Hello" of section 5.7 of RFC 6455 is handed over as "Hello" and leaves the buffer empty |
| WebSocketReassembly.HelFragment | ApplicationServer/src/Mongoose/mongoose.c:4157-4163 | an instance: the unmasked fragment "Hel" of section 5.7 of RFC 6455 is kept as three zeros, its data lying where the size record is written |
| WebSocketReassembly.StrayFragment | ApplicationServer/src/Mongoose/mongoose.c:4157-4181 | an instance: of a last fragment never begun, a byte that lay behind it is handed over in its place |
| WebSocketReassembly.TakenLater | ApplicationServer/src/Mongoose/mongoose.c:4157-4181 | a continuation behind a record of any length: the last one hands over as many bytes as the 32-bit size record says and leaves the others in front of what follows |
| WebSocketSizes.DeliveredExactly | ApplicationServer/src/Mongoose/mongoose.c:4106-4190 | the exact condition over all streams and arrivals, with the 32-bit size record wrapping as in the code: what the handler is given is every message once, complete and in order, if and only if no fragmented message holds 2^32 bytes or more |
| WebSocketSizes.ArrivalsRecordSized | ApplicationServer/src/Mongoose/mongoose.c:4106-4190 | whatever bytes arrive, a message handed over from the record is shorter than 2^32 bytes |
| WebSocketSizes.TooLongMessage | ApplicationServer/src/Mongoose/mongoose.c:4157-4181 | what is received instead of a message of two fragments that is too long: its first bytes, as many as its length modulo 2^32, the others being read as the bytes that follow |
| WebSocketSizes.EmptyMessageForFourGigabytes | ApplicationServer/src/Mongoose/mongoose.c:4157-4181 | an instance: of 2^32 zero bytes in two fragments the handler is given one empty message, and six bytes stay in the buffer |
| WebSocketConnection.MaskInPlace | ApplicationServer/src/Mongoose/mongoose.c:4149-4154 | the masking loop changes only the frame's data, each byte combined with the key byte at its index modulo 4 |
| WebSocketConnection.Connection.Deliver | ApplicationServer/src/Mongoose/mongoose.c:4106-4190 | the in-place code (unmask, stomped size record, overlapping moves, removal) is the delivery step on the buffer's bytes, for every buffer, a size record that wraps and a continuation never begun included; it halts only where the code would leave the bytes in use |
| WebSocketConnection.Connection.OnReceive | ApplicationServer/src/Mongoose/mongoose.c:4321-4331 | appending what arrived and looping on deliver is the drain of the joined bytes |
| WebSocketConnection.ReceiveAll | ApplicationServer/src/Mongoose/mongoose.c:4321-4331 | a whole run of arrivals on the connection is the run the delivery theorems are about |
| WebSocketConnection.SendClientFrame | ApplicationServer/src/Mongoose/mongoose.c:4225-4282 | header, key and payload masked where it lies append exactly the wire form of the frame |
| ChunkedBody.HexRoundTrip | ApplicationServer/src/Mongoose/mongoose.c:4443-4474 | a size line, in digits of either case, is read back as the number printed, in 64-bit arithmetic |
| Hex.HexEitherCase | ApplicationServer/src/Mongoose/mongoose.c:4450-4454 | a character is read as the digit d exactly when it is the printed digit in either case |
| Hex.HexChars | ApplicationServer/src/Mongoose/mongoose.c:5660-5668 | the printed digits are those of 0123456789ABCDEF |
| ChunkedBody.PrintedChunks | ApplicationServer/src/Mongoose/mongoose.c:5660-5668 | two chunks of a body and the empty one, byte by byte |
| ChunkedBody.ParsePrinted | ApplicationServer/src/Mongoose/mongoose.c:4443-4474 | a chunk with a size line in either case is parsed to its own bounds whatever follows it |
| ChunkedBody.BoundsInside | ApplicationServer/src/Mongoose/mongoose.c:4443-4474 | when a chunk is found, its bounds lie inside the bytes if and only if the position behind it fits in 64 bits; otherwise its data is said to reach beyond them |
| ChunkedBody.WrappedChunk | ApplicationServer/src/Mongoose/mongoose.c:4443-4474 | an instance: the size line of 2^64 - 2 bytes is taken for a whole chunk of that many |
| ChunkedBody.ParseChunkStable | ApplicationServer/src/Mongoose/mongoose.c:4443-4474 | more bytes behind a chunk do not change what was found in front |
| ChunkedBody.WalkContinues | ApplicationServer/src/Mongoose/mongoose.c:4476-4529 | walking what arrived, then the rest with later bytes, is one walk over all the bytes |
| ChunkedBody.WalkPrinted | ApplicationServer/src/Mongoose/mongoose.c:5660-5668 | non-empty blocks and the empty one, their size lines in either case, walk back to their joined contents; bytes behind are untouched |
| ChunkedBody.ArrivalsAgree | ApplicationServer/src/Mongoose/mongoose.c:4476-4529 | for every byte stream, every arrival split and every answer of the handler, the state is what a single call on all the bytes leaves, less what was deleted, up to a chunk whose bounds lead outside the bytes, if there is one |
| ChunkedBody.BlocksArrive | ApplicationServer/src/Mongoose/mongoose.c:4476-4529 | blocks printed with size lines in either case are received once, in order, complete, however they arrive (section 4.1 of RFC 7230) |
| ChunkedBody.KeptWhole | ApplicationServer/src/Mongoose/mongoose.c:4503-4526 | while the handler never asks for deletion nothing leaves the buffer, so the body prefix is all of the data |
| ChunkedConnection.ParseChunkAt | ApplicationServer/src/Mongoose/mongoose.c:4443-4474 | the parser on the buffer finds size, data and both line ends in 64-bit arithmetic, or no chunk, or looks outside the bytes it is given |
| ChunkedConnection.WalkInPlace | ApplicationServer/src/Mongoose/mongoose.c:4486-4501 | the loop moves each chunk's data down behind the body and stops where the walk on the bytes stops |
| ChunkedConnection.Connection.HandleChunked | ApplicationServer/src/Mongoose/mongoose.c:4476-4529 | one call does to head, body and pending bytes what the step on the state says: body_len, the event's body, the shift, the deletion and the final message length |
| ChunkedConnection.ReceiveAll | ApplicationServer/src/Mongoose/mongoose.c:4476-4529 | a run of arrivals on the connection is the run the arrival theorems are about |
| ChunkedConnection.SendChunk | ApplicationServer/src/Mongoose/mongoose.c:5660-5668 | size line, data and line end are appended |
| MultipartPart.GotChunkKeeps | ApplicationServer/src/Mongoose/mongoose.c:4858-4869 | what a got-chunk step sends ends before any boundary that may still come |
| MultipartPart.ContinueKeeps | ApplicationServer/src/Mongoose/mongoose.c:4961-4989 | a wait-for-chunk step keeps the data announced plus the buffer equal to the bytes so far and the delimiter inside the buffer, or ends the part at the boundary |
| MultipartPart.DataBeforeFirstBoundary | ApplicationServer/src/Mongoose/mongoose.c:4961-5035 | whatever the stream and its arrivals, the part ends at the first boundary, which the buffer then begins with; the data announced joins to the bytes before its delimiter, or, with fewer than four bytes before the boundary, there is one announcement, of a negative size |
| MultipartPart.PayloadsAreBody | ApplicationServer/src/Mongoose/mongoose.c:4858-5035 | the PART_DATA announcements are exactly the body, with no size but that of the data, if and only if the boundary first occurs behind the body's delimiter (section 5.1.1 of RFC 2046) |
| MultipartPart.BoundaryInFront | ApplicationServer/src/Mongoose/mongoose.c:4979-4985 | an instance: a boundary in front of everything is announced as 2^64 - 4 bytes of data |
| MultipartPart.HyphenBoundary | ApplicationServer/src/Mongoose/mongoose.c:4979-4985 | a second instance: a boundary string the delimiter itself contains ends an empty part two bytes early, and -2 bytes are announced |
| MultipartConnection.StrNStr | ApplicationServer/src/Mongoose/mongoose.c:1594-1604 | the search finds the first occurrence, or tells there is none |
| MultipartConnection.Connection.ContinuePart | ApplicationServer/src/Mongoose/mongoose.c:4961-5035 | the state machine on the buffer takes the step on the state |
| MultipartConnection.ReceiveAll | ApplicationServer/src/Mongoose/mongoose.c:4961-5035 | a run of arrivals on the connection is the run the payload theorems are about |
| BlockHash.FoldConcat | ApplicationServer/src/Mongoose/mongoose.c:1263-1281 | folding the transform over whole blocks, then over more, is folding over their concatenation |
| BlockHash.PaddedIs | ApplicationServer/src/Mongoose/mongoose.c:1283-1304 | the padded message is the only text that is the message, one bit 1, the fewest zeros and the length field, in whole blocks |
| BlockHash.CountAdds | ApplicationServer/src/Mongoose/mongoose.c:1267-1270 | the two-word bit count after an update, carry found by comparing, is the count of the longer message |
| BlockHash.BitsOfWords | ApplicationServer/src/Mongoose/mongoose.c:1267-1270 | the two words together are 8 times the length modulo 2^64 |
| Sha1.CopiesInside | ApplicationServer/src/Mongoose/mongoose.c:1269-1280 | the ends of the copies into the 64-byte buffer, computed in the code's 32-bit arithmetic, all lie inside it if and only if fill and length add up to less than 2^32 |
| Sha1.CopyLeaves | ApplicationServer/src/Mongoose/mongoose.c:1269-1280 | an instance: with one byte in the buffer and 2^32 - 1 more, the one copy ends at 2^32 |
| Sha1.Context.Update | ApplicationServer/src/Mongoose/mongoose.c:1263-1281 | buffering keeps the fold of everything hashed so far, and is carried out exactly when every copy ends inside the buffer |
| Sha1.Context.Final | ApplicationServer/src/Mongoose/mongoose.c:1283-1304 | padding byte by byte through update gives the fold over the padded message with its 64-bit length (section 4 of RFC 3174) |
| Sha1.DigestWords | ApplicationServer/src/Mongoose/mongoose.c:1283-1304 | the five words of the digest, read big-endian, are the five initial words of RFC 3174 folded over any text that is the padded message |
| Sha1.HashPieces | ApplicationServer/src/Mongoose/mongoose.c:4348-4357 | init, one update per piece, final: carried out exactly when each piece fits behind the ones before it, and then the digest of the pieces joined, each cut to its length modulo 2^32; independent of the split for shorter pieces |
| Sha1.HmacSha1 | ApplicationServer/src/Mongoose/mongoose.c:1307-1331 | the two nested hashes with xored key blocks (section 2 of RFC 2104), long keys hashed first, lengths taken modulo 2^32 |
| Sha1.HmacNested | ApplicationServer/src/Mongoose/mongoose.c:1307-1331 | for every key and text the code is the nested digest behind any two blocks that are the key combined with 36 and 5C (section 2 of RFC 2104) |
| Md5.CountedRight | ApplicationServer/src/Mongoose/mongoose.c:850-862 | an update's bit count is right modulo 2^64 if and only if bits 32 to 60 of the length are zero |
| Md5.LengthFieldRight | ApplicationServer/src/Mongoose/mongoose.c:850-913 | the length field of a digest is right if and only if the pieces' lengths, each taken modulo 2^32, add up to the length of the message modulo 2^61 |
| Md5.LongPieceUncounted | ApplicationServer/src/Mongoose/mongoose.c:850-862 | an instance: a piece of 2^32 bytes is counted as none |
| Md5.Context.Update | ApplicationServer/src/Mongoose/mongoose.c:850-883 | buffering keeps the fold of everything hashed, while the count takes the length modulo 2^32 |
| Md5.Context.Final | ApplicationServer/src/Mongoose/mongoose.c:885-913 | padding in the block, in a second one when the length does not fit, gives the fold over the padded message |
| Md5.DigestWords | ApplicationServer/src/Mongoose/mongoose.c:885-913 | the four words of the digest, read little-endian, are the four initial words of RFC 1321 folded over any text that is the padded message |
| Md5.HashPieces | ApplicationServer/src/Mongoose/mongoose.c:850-913 | the digest does not depend on the split; it is the MD5 of the concatenation when its length field is right, so whenever no piece has 2^32 bytes (sections 3.1 to 3.3 of RFC 1321) |
| Base64.DecodeEncode | ApplicationServer/src/Mongoose/mongoose.c:398-454 | decoding an encoding gives the bytes back and consumes every character, for every byte string |
| Base64.EncodeConcat | ApplicationServer/src/Mongoose/mongoose.c:336-395 | a prefix of whole groups is encoded by itself |
| Base64.Alphabet | ApplicationServer/src/Mongoose/mongoose.c:337-338 | the 64 characters of table 1 of RFC 4648 |
| Base64.GroupWritten | ApplicationServer/src/Mongoose/mongoose.c:336-395 | one to three bytes are written as the digits in base 64 of their number of 24 bits, with an equals sign for each byte that is missing |
| Base64.DecodeStops | ApplicationServer/src/Mongoose/mongoose.c:437-454 | behind whole groups decoding stops at a group with a foreign character or cut short, with what was read so far |
| Base64.HighBit | ApplicationServer/src/Mongoose/mongoose.c:398-436 | the high bit of a character makes no difference to what is decoded |
| Base64.EncodeInto | ApplicationServer/src/Mongoose/mongoose.c:336-395 | the table-driven encoder writes the encoding and a NUL and stays inside the buffer |
| Base64.EncodePieces | ApplicationServer/src/Mongoose/mongoose.c:278-334 | init, one update per piece, finish emit the one-shot text for every split |
| Base64.Stream.Update | ApplicationServer/src/Mongoose/mongoose.c:315-325 | the chunk of up to three bytes and the text written keep standing for everything put in |
| Base64.DecodeInto | ApplicationServer/src/Mongoose/mongoose.c:437-454 | the decoder loop writes the decoded bytes and a NUL inside the buffer and returns the characters used |
| CoapFormat.AddAllSorts | ApplicationServer/src/Mongoose/mongoose.c:9030-9075 | options added in any order end up sorted by number, those of one number in the order of adding |
| CoapOptions.OptionList.Add | ApplicationServer/src/Mongoose/mongoose.c:9030-9075 | on the linked nodes with their tail pointer adding inserts at exactly the place the list specification says |
| CoapOptions.OptionList.LinkBetween | ApplicationServer/src/Mongoose/mongoose.c:9064-9071 | linking a node between two others keeps the chain and the tail pointer |
| CoapOptions.OptionList.Free | ApplicationServer/src/Mongoose/mongoose.c:9022-9028 | freeing walks every node once and leaves the empty list |
| CoapCodec.ReservedCoversWritten | ApplicationServer/src/Mongoose/mongoose.c:9399-9445 | no accepted message is printed longer than what was reserved, and exactly as long if and only if every option number and its delta fall in the same size class |
| CoapCodec.ReadOptionOf | ApplicationServer/src/Mongoose/mongoose.c:9168-9205 | an option printed with its delta and length extensions is read back whatever follows |
| CoapCodec.ReadOptionsOf | ApplicationServer/src/Mongoose/mongoose.c:9214-9296 | a sorted option list is read back from its deltas up to the payload marker or the end |
| CoapCodec.ParseComposed | ApplicationServer/src/Mongoose/mongoose.c:9298-9323 | type, code, id, token, options and payload are recovered from every composed message if and only if its option numbers and value lengths fit in 16 bits (sections 3 and 3.1 of RFC 7252) |
| CoapLaws.MessageWritten | ApplicationServer/src/Mongoose/mongoose.c:9447-9516 | a composed message bit by bit: version, type, token length, code, id big-endian, token, and a byte of all ones before a payload (section 3 of RFC 7252) |
| CoapLaws.OptionWritten | ApplicationServer/src/Mongoose/mongoose.c:9330-9397 | an option by its nibbles and extensions, the delta first: 13 announces a byte less 13, 14 two bytes less 269 (section 3.1 of RFC 7252) |
| CoapLaws.OptionCut | ApplicationServer/src/Mongoose/mongoose.c:9214-9296 | an option cut anywhere is waited for, not taken and not refused |
| CoapLaws.HeadCut | ApplicationServer/src/Mongoose/mongoose.c:9083-9166 | so is a message cut inside its header or token |
| CoapLaws.Refusals | ApplicationServer/src/Mongoose/mongoose.c:9083-9166 | another version is ignored; a token length above 8 and a nibble of 15 that is no payload marker are format errors |
| CoapLaws.RefusedExactly | ApplicationServer/src/Mongoose/mongoose.c:9399-9445 | compose refuses a message exactly when a field is too large, an option too long or its number too high, or two options are out of order |
| CoapLaws.Figure16 | ApplicationServer/src/Mongoose/mongoose.c:9447-9516 | the request and the answer of figure 16 in appendix A of RFC 7252, byte by byte |
| CoapCodec.LongNumberLost | ApplicationServer/src/Mongoose/mongoose.c:9298-9323 | an instance: an option number of 2^16 or more that compose accepts comes back smaller by 2^16 |
| CoapMessage.CoapMessage.CalculatePacketSize | ApplicationServer/src/Mongoose/mongoose.c:9399-9445 | the size, or the field that is refused, for every message |
| CoapMessage.CoapMessage.Compose | ApplicationServer/src/Mongoose/mongoose.c:9447-9516 | behind what the buffer held stand exactly the bytes of the message, inside the reserved room; a refused message leaves the buffer alone |
| CoapMessage.CoapMessage.Parse | ApplicationServer/src/Mongoose/mongoose.c:9298-9323 | the cursor-driven parser fills the message, or reports the error and frees its options, as the parser on the bytes does, for every buffer |
| JsonNumbers.UintToString | ApplicationServer/src/jsoncpp/jsoncpp.cpp:156-176 | the digits written backwards are the decimal text and stay within 21 bytes before the end |
| Decimals.NumberHead | ApplicationServer/src/jsoncpp/jsoncpp.cpp:786-826 | decimal positions: the first digit counts as many powers of ten as there are digits behind it |
| Decimals.DecimalShortest | ApplicationServer/src/jsoncpp/jsoncpp.cpp:156-176 | no digit too many: only the number 0 is printed with a leading zero |
| JsonNumbers.ValueToString | ApplicationServer/src/jsoncpp/jsoncpp.cpp:4171-4185 | every signed 64-bit integer, the smallest included, becomes its decimal text inside the 25-byte buffer |
| JsonNumbers.UnsignedToString | ApplicationServer/src/jsoncpp/jsoncpp.cpp:4187-4193 | the same for unsigned integers |
| JsonNumbers.DecodeNumber | ApplicationServer/src/jsoncpp/jsoncpp.cpp:786-826 | the value is the exact integer if and only if the token is an integer in [-2^63, 2^64-1], with every 64-bit operation proved not to overflow; else it is left to decodeDouble |
| JsonNumbers.DecodeInvertsText | ApplicationServer/src/jsoncpp/jsoncpp.cpp:786-826 | decodeNumber inverts valueToString on every 64-bit integer |
| JsonStrings.Utf8OfScalar | ApplicationServer/src/jsoncpp/jsoncpp.cpp:125-151 | the encoder yields a well-formed UTF-8 character that stands for the scalar value (section 3 of RFC 3629) |
| JsonStrings.ScalarOfUtf8 | ApplicationServer/src/jsoncpp/jsoncpp.cpp:125-151 | and every well-formed character is the encoding of its scalar value |
| JsonStrings.Utf8Examples | ApplicationServer/src/jsoncpp/jsoncpp.cpp:125-151 | a character of each length, byte by byte |
| JsonStrings.ValueToQuotedStringN | ApplicationServer/src/jsoncpp/jsoncpp.cpp:4320-4381 | quoting with its shortcut for plain text gives the escaped text for every byte string |
| JsonStrings.ScanQuoted | ApplicationServer/src/jsoncpp/jsoncpp.cpp:670-680 | the scan of a quoted string stops exactly at its closing quote |
| JsonStrings.DecodeEscaped | ApplicationServer/src/jsoncpp/jsoncpp.cpp:861-912 | every byte string survives quoting and decoding |
| JsonStrings.NoControls | ApplicationServer/src/jsoncpp/jsoncpp.cpp:4320-4381 | a quoted text holds no control character and no quote but escaped ones |
| JsonStrings.WrittenEscapes | ApplicationServer/src/jsoncpp/jsoncpp.cpp:4337-4371 | the escapes as they are written, byte by byte |
| JsonStrings.ReadEscapes | ApplicationServer/src/jsoncpp/jsoncpp.cpp:880-905 | the escapes as they are read, byte by byte, the slash and lower-case digits included |
| JsonStrings.UnknownEscape | ApplicationServer/src/jsoncpp/jsoncpp.cpp:880-905 | any other character behind a backslash fails |
| JsonStrings.Hex4EitherCase | ApplicationServer/src/jsoncpp/jsoncpp.cpp:943-970 | four digits are read as a number exactly when they are its printed digits in either case |
| JsonStrings.DecodeEscape | ApplicationServer/src/jsoncpp/jsoncpp.cpp:943-970 | one \u escape of a scalar value below 2^16, its digits in either case, decodes to the UTF-8 of the scalar |
| JsonStrings.DecodePair | ApplicationServer/src/jsoncpp/jsoncpp.cpp:914-941 | every supplementary scalar value written as a surrogate pair, its digits in either case, decodes to its UTF-8 bytes |
| JsonStrings.DecodeString | ApplicationServer/src/jsoncpp/jsoncpp.cpp:861-912 | the cursor-driven decoder gives the decoded bytes, or fails, as the decoder on the text does |
| JsonStrings.DecodeUnicodeCodePoint | ApplicationServer/src/jsoncpp/jsoncpp.cpp:914-941 | surrogates are joined, a missing second half fails |
| JsonReader.ParsedIsMap | ApplicationServer/src/jsoncpp/jsoncpp.cpp:682-736 | whatever the document, with repeated or misplaced keys, comments and syntax errors inside, the members of every object the reader returns are in strictly ascending key order |
| JsonValue.LessAt | ApplicationServer/src/jsoncpp/jsoncpp.cpp:2754-2766 | the order of keys: by the first byte in which two keys differ, and a key in front of its extensions |
| JsonValue.InsertHolds | ApplicationServer/src/jsoncpp/jsoncpp.cpp:709-716 | putting a member into an object: x is in it then exactly when x is the member, or was in it and has another key |
| JsonValue.InsertAllHolds | ApplicationServer/src/jsoncpp/jsoncpp.cpp:682-736 | putting members in one after the other: x is in the object exactly when it is the last of its key, or was in it and its key is not among them |
| JsonMeaning.ParsedMeans | ApplicationServer/src/jsoncpp/jsoncpp.cpp:341-465 | a text that spells a value with members in any order and any repetitions, with blanks anywhere, is read as an object with exactly the keys spelled, each once, in order, with the value spelled last for it, through all depths up to 1000 |
| JsonDocuments.PairRead | ApplicationServer/src/jsoncpp/jsoncpp.cpp:682-736 | an object of two numbers byte by byte: both are kept, in the order of the keys, and of one key twice the second number |
| JsonDocuments.NestedRead | ApplicationServer/src/jsoncpp/jsoncpp.cpp:383-391 | n brackets opened and closed again are a value exactly up to n = 1000, and meet the stack limit beyond |
| JsonLexis.BlankByte | ApplicationServer/src/jsoncpp/jsoncpp.cpp:548-556 | one byte in front of a document never changes what is read, exactly when it is a blank, a tab, a line feed or a carriage return |
| JsonLexis.CommentBefore | ApplicationServer/src/jsoncpp/jsoncpp.cpp:569-630 | a comment between slash star and the next star slash never changes what is read behind it; without an end nothing is read |
| JsonLexis.LineCommentBefore | ApplicationServer/src/jsoncpp/jsoncpp.cpp:632-646 | nor does a comment of two slashes up to a line feed, a carriage return or both |
| JsonLexis.NumberRead | ApplicationServer/src/jsoncpp/jsoncpp.cpp:648-668 | a number with a fraction or an exponent, signs and either case of e included, is taken whole and left to decodeDouble |
| JsonParser.Reader.ReadToken | ApplicationServer/src/jsoncpp/jsoncpp.cpp:477-556 | the token and the cursor are those of the specification, and the cursor moves forward, past at least one character unless the stream is at its end |
| JsonParser.Reader.RecoverFromError | ApplicationServer/src/jsoncpp/jsoncpp.cpp:982-993 | error recovery ends, at the wanted token or at the end of the stream, with the cursor only moving forward |
| JsonParser.Reader.ReadObject | ApplicationServer/src/jsoncpp/jsoncpp.cpp:682-736 | the member loop, its quirks with empty names and comments included, meets the specification; the cursor moves forward inside the document |
| JsonParser.Reader.ReadElementsLoop | ApplicationServer/src/jsoncpp/jsoncpp.cpp:738-774 | the element loop meets the specification |
| JsonParser.Reader.ReadValue | ApplicationServer/src/jsoncpp/jsoncpp.cpp:383-465 | reading a value ends with the value, false or the stack limit, as specified, and counts its depth back |
| JsonParser.Reader.Parse | ApplicationServer/src/jsoncpp/jsoncpp.cpp:341-381 | parse ends on every document with the verdict of the specification |
| JsonTokens.ReadsValue | ApplicationServer/src/jsoncpp/jsoncpp.cpp:383-465 | every text that spells the tokens of a value, with any white space between them, is read as that value if it fits under the stack limit, else runs into it |
| JsonText.FastSpells | ApplicationServer/src/jsoncpp/jsoncpp.cpp:4408-4460 | FastWriter's text spells the tokens of the value, in front of anything |
| JsonDocuments.FastPair | ApplicationServer/src/jsoncpp/jsoncpp.cpp:4416-4460 | two elements, two members: the brackets, commas and colons FastWriter puts around their texts, with a blank behind a colon for YAML |
| JsonDocuments.FastFlat | ApplicationServer/src/jsoncpp/jsoncpp.cpp:4400-4430 | null, which may be left out, true, false, empty containers, and the line feed at the end, which may be left out |
| JsonStyled.StyledGrows | ApplicationServer/src/jsoncpp/jsoncpp.cpp:4479-4579 | whichever layout StyledWriter's line-length test selects, what it appends spells the tokens of the value with keys cut at their first NUL |
| JsonDocuments.OneLine | ApplicationServer/src/jsoncpp/jsoncpp.cpp:4581-4606 | the elements of an array are put on one line exactly when none of them needs lines of its own and that line has fewer than 74 characters |
| JsonDocuments.StyledPair | ApplicationServer/src/jsoncpp/jsoncpp.cpp:4504-4536 | an object of two numbers laid out byte by byte |
| JsonDocuments.StyledLine | ApplicationServer/src/jsoncpp/jsoncpp.cpp:4538-4579 | an array of two numbers on one line, byte by byte |
| JsonDocuments.StyledLines | ApplicationServer/src/jsoncpp/jsoncpp.cpp:4538-4579 | an element too long for one line, byte by byte |
| JsonRoundTrip.FastRoundTrip | ApplicationServer/src/jsoncpp/jsoncpp.cpp:4408-4460 | for every value of null, booleans, 64-bit integers, byte strings, arrays and objects, parsing FastWriter's document gives the same value up to the int/uint tag if it is nested at most 1000 deep, and the stack limit error otherwise |
| JsonRoundTrip.StyledRoundTrip | ApplicationServer/src/jsoncpp/jsoncpp.cpp:4468-4579 | StyledWriter's document parses to the value with every key cut at its first NUL, to the same depth |
| JsonRoundTrip.StyledAgreesWithFast | ApplicationServer/src/jsoncpp/jsoncpp.cpp:4468-4636 | the two writers' documents parse to the same value if and only if no key holds a NUL |
| JsonWriters.FastWriter.Write | ApplicationServer/src/jsoncpp/jsoncpp.cpp:4400-4406 | the recursion over the document field writes exactly the specified text, whatever an earlier call left |
| JsonWriters.StyledWriter.Write | ApplicationServer/src/jsoncpp/jsoncpp.cpp:4468-4477 | with its cached child strings, flag and indentation the writer produces exactly the layout, whatever an earlier call left in them |
| JsonWriters.StyledWriter.IsMultiLineArray | ApplicationServer/src/jsoncpp/jsoncpp.cpp:4581-4606 | the line test is as specified, and the cache is left empty or filled with the strings of all elements |
| JsonWriters.StyledWriter.WriteValue | ApplicationServer/src/jsoncpp/jsoncpp.cpp:4479-4536 | a value goes into the document, or as one string onto the cache; indentation and flag are restored |
| MailLists.SplitJoin | ApplicationServer/src/person/PersonManager.cpp:20-32 | splitting undoes joining for lists of non-empty, comma-free mails |
| MailLists.JoinTwo | ApplicationServer/src/person/PersonManager.cpp:291-307 | a list of mails is joined with one comma behind every mail but the last |
| MailLists.SplitText | ApplicationServer/src/person/PersonManager.cpp:20-32 | split on getline: a last comma adds no item |
| MailLists.RejoinWithout | ApplicationServer/src/person/PersonManager.cpp:296-307 | the accumulation loop of deleteUserFromSkill gives the specified text for any items, and for a list's items joins exactly the other mails |
| UserKeys.KindShown | ApplicationServer/src/person/Manager.cpp:10-60 | the prefixes keep the kinds of keys apart and the rest can be read off a key |
| UserKeys.NamePartInjective | ApplicationServer/src/person/Manager.cpp:26-29 | with underscore-free names a name key tells its user |
| UserEffects.LowerIs | ApplicationServer/src/person/Person.cpp:136-150 | a text is what tolower makes of another exactly when it equals it up to the case of letters and has no capital |
| UserEffects.LowerSame | ApplicationServer/src/person/Person.cpp:136-150 | two texts become the same exactly when they are equal up to the case of letters |
| UserEffects.KeyForms | ApplicationServer/src/person/Manager.h:12-18 | the keys of a user as they are spelled: user:mail_, user:uuid_, user:password_ and user:name_ with what follows them |
| UserIndex.IndexMoves | ApplicationServer/src/person/Manager.cpp:26-37 | an index stays one to one with the records through any change of one record, provided no other user has its new key |
| UserIndex.AddSkillsLists | ApplicationServer/src/person/PersonManager.cpp:211-230 | after saveSkills the mail stands at the end of the lists of exactly its skills |
| UserIndex.DropListedLists | ApplicationServer/src/person/PersonManager.cpp:291-312 | dropping a mail from lists it is on, with repetitions, takes it out of exactly those lists, or throws BadImplementationException, exactly when a skill is named twice and listed for this mail alone |
| UserOps.SavedSkills | ApplicationServer/src/person/PersonManager.cpp:211-230 | for every profile the skill lists agree with the records after savePerson if and only if the profile has no skill, or its mail is neither empty nor has a comma and no skill is named twice |
| UserOps.SavedNames | ApplicationServer/src/person/Manager.cpp:26-29 | for every profile the name index agrees with the records after savePerson if and only if the name key was free |
| UserOps.SavedInv | ApplicationServer/src/person/PersonManager.cpp:175-230 | for every profile and id savePerson keeps records, id, name, password and skill keys in agreement if and only if the id and the name key are free and the skills fit as above |
| UserUpdates.UpdatedInv | ApplicationServer/src/person/PersonManager.cpp:48-165 | for every new profile updateUser keeps the agreement if and only if it does not throw, the name key is the old one or free, and no skill is new or the mail can be listed and no new skill is named twice; when it throws is a condition on the old record and the lists |
| UserOps.SavedUsers | ApplicationServer/src/person/PersonManager.cpp:175-210 | whatever the store, the profile and its id, savePerson changes no record but the new one |
| UserUpdates.UpdatedUsers | ApplicationServer/src/person/PersonManager.cpp:48-91 | whatever the store and the new profile, updateUser changes no record but the one, and none when it throws |
| UserLimits.ListedExactly | ApplicationServer/src/person/PersonManager.cpp:211-230 | the first user saved with a skill is listed under it if and only if the mail is neither empty nor has a comma |
| UserLimits.CommaMail | ApplicationServer/src/person/PersonManager.cpp:211-230 | an instance: the mail "a,b" is listed as two users that do not exist, and the agreement is lost |
| UserLimits.RepeatedSkill | ApplicationServer/src/person/PersonManager.cpp:211-230 | a skill named twice lists the mail twice, and the agreement is lost |
| UserLimits.SharedNameKey | ApplicationServer/src/person/Manager.cpp:26-29 | two users with underscores in name and mail share a name key, and when both are saved the name index no longer agrees with the records |
| UserLimits.SharedId | ApplicationServer/src/person/PersonManager.cpp:175-204 | a user saved under an id in use, and the agreement is lost |
| UserLimits.EmptyMailSaved | ApplicationServer/src/person/PersonManager.cpp:175-230 | a user with an empty mail and a skill is saved and the agreement is lost |
| UserLimits.EmptyMailUpdated | ApplicationServer/src/person/PersonManager.cpp:48-99 | and so when a user with an empty mail is given a first skill |
| UserLimits.RepeatedSkillThrows | ApplicationServer/src/person/PersonManager.cpp:271-312 | a user updated to name a skill twice cannot be deleted: the second try to drop it throws, and the deletion stays half done |
| UserUpdates.DeletedUsers | ApplicationServer/src/person/PersonManager.cpp:271-290 | whatever the store, deletePerson takes out exactly the one user, and none when an exception stops it |
| UserUpdates.DeletedInv | ApplicationServer/src/person/PersonManager.cpp:271-312 | deletePerson keeps the agreement if and only if no skill of the user is named twice and listed for this mail alone, which is when nothing is thrown on the way |
| UserTyping.SavedTyped | ApplicationServer/src/person/PersonManager.cpp:175-230 | whatever the profile, savePerson leaves a store on which every operation can be run |
| UserTyping.UpdatedTyped | ApplicationServer/src/person/PersonManager.cpp:48-165 | so does updateUser, exceptions included |
| UserTyping.DeletedTyped | ApplicationServer/src/person/PersonManager.cpp:271-312 | and deletePerson, exceptions included |
| UserRuns.UserByIdFinds | ApplicationServer/src/person/Manager.cpp:77-86 | under the invariant the id index finds exactly the user with the id, or nobody has it |
| UserEffects.SavePersonStores | ApplicationServer/src/person/PersonManager.cpp:175-204 | after savePerson, on any store that calls have left, the record stands under the mail in small letters with the request's names, city and skills in small letters, its password, place and other texts, and no recommendation; mail, id, name and password are under their keys as spelled; the id is the forced one or the next after lastID |
| UserEffects.UpdateUserStores | ApplicationServer/src/person/PersonManager.cpp:48-91 | after updateUser the record has the old mail and recommendations, the request's names, city, skills and other texts, the old password exactly when none is given, and the old place exactly when both coordinates are 0; if records and keys agreed, the texts under all four keys are the new ones and an old name key is gone |
| UserEffects.DeletePersonClears | ApplicationServer/src/person/PersonManager.cpp:271-290 | after deletePerson, on any store that calls have left, none of the four keys of the user is in the store, unless it stopped half done |
| UserRuns.RunTyped | ApplicationServer/src/person/PersonManager.cpp:33-312 | every state any calls reach from the empty store is one on which every call is specified |
| UserRuns.CallInv | ApplicationServer/src/person/PersonManager.cpp:33-312 | from agreement, a call with any profile and any id keeps it if and only if the call fits the state, which can be asked before |
| UserRuns.RunAgrees | ApplicationServer/src/person/PersonManager.cpp:33-312 | for any calls whatever, refusals and exceptions included, the indexes agree with the records after every one of them if and only if every one fits the state it meets |
| UserRuns.RunInv | ApplicationServer/src/person/PersonManager.cpp:33-312 | for calls with underscore-free names, comma-free mails, no repeated skill and generated ids this is so if and only if none saves a user with an empty mail and a skill or gives one a skill |
| UserRuns.RunKeeps | ApplicationServer/src/person/PersonManager.cpp:33-312 | so such calls that save no empty mail keep the agreement for good |
| PersonStore.PersonManager.GenerateID | ApplicationServer/src/person/PersonManager.cpp:33-46 | the next id is stored as text and returned |
| PersonStore.PersonManager.SavePerson | ApplicationServer/src/person/PersonManager.cpp:175-210 | on any store that calls have left, for every profile and forced id, the method changes the store as specified, refuses a taken mail, puts the request's record and texts under the keys as spelled and changes nobody else's record; from agreement it keeps it under the exact condition |
| PersonStore.PersonManager.UpdateUser | ApplicationServer/src/person/PersonManager.cpp:48-91 | on any store that calls have left, for every profile, the method changes the store as specified, refuses an unknown id, takes over the old mail, recommendations and what the request leaves out and nothing else, changes nobody else's record and none when it throws; from agreement it writes the texts under the keys as spelled and keeps the agreement under the exact condition |
| PersonStore.PersonManager.UpdateSkills | ApplicationServer/src/person/PersonManager.cpp:131-165 | the two nested loops add the new and drop the given-up skills and stop where BadImplementationException is thrown |
| PersonStore.PersonManager.DeletePerson | ApplicationServer/src/person/PersonManager.cpp:271-290 | on any store that calls have left the method removes every key of the user, refuses an unknown id, and reports an exception as a user not found with the deletion half done; from agreement it keeps it under the exact condition |
| PersonStore.PersonManager.DeleteUserFromSkill | ApplicationServer/src/person/PersonManager.cpp:291-312 | the list without the mail is stored, or the key deleted when nobody is left; a skill that is not listed throws |
| PersonStore.PersonManager.GetUserById | ApplicationServer/src/person/Manager.cpp:77-86 | lookup by way of the mail under the id |
| UserSearch.SearchMatchesScan | ApplicationServer/src/person/PersonManager.cpp:438-471 | given the index agreement the indexed search returns exactly the users a full scan with has_every_skill returns, each once, for every non-empty list of skills |
| UserSearch.SearchFinds | ApplicationServer/src/person/PersonManager.cpp:438-471 | given the agreement it returns exactly the users that have, up to the case of letters, every skill asked for |
| UserSearch.SearchAnyCase | ApplicationServer/src/person/PersonManager.cpp:438-471 | on any store, two lists of skills that differ in the case of letters only give the same result |
| UserSearch.SavedFound | ApplicationServer/src/person/PersonManager.cpp:175-230 | a user saved with a skill is found by it, in whatever letter case the two are written |
| UserSearch.WithSkillsSplit | ApplicationServer/src/person/PersonManager.cpp:455-468 | filtering by skills keeps the order: the result for two lists joined is the two results joined |
| UserSearch.SearchBySkill | ApplicationServer/src/person/PersonManager.cpp:438-471 | no lookup fails, the users with all skills are returned in list order, the other loaded persons are freed once |
| UserSearch.SearchUsersBy | ApplicationServer/src/person/PersonManager.cpp:339-434 | with a skill list the result is the order-preserving filter of the skill search by the further tests, and every person of the skill search is returned or freed, exactly once |
| UserSearch.Sieve | ApplicationServer/src/person/PersonManager.cpp:352-413 | one criterion nulls exactly the failing entries and puts each of them aside once |
| UserSearch.PassingSplit | ApplicationServer/src/person/PersonManager.cpp:352-434 | the further tests keep the order: what passes of two lists joined is what passes of each |

## Left out

- WebSocketReassembly.DeliverStep: does not follow the code where it reads or writes memory outside the bytes in use: a frame whose 64-bit length wraps, or a continuation without a begun message that leaves no room for its size record or its message; such a step is `Stopped`.
- WebSocketReassembly.EveryMessageOnce: speaks of masked frames without control frames between the fragments; short unmasked headers are overwritten by the size record (the model shows it as `Stomped`), and an interleaved control frame is joined to the message.
- WebSocketConnection.Connection.Deliver: does not model the close flag, which the code sets from a byte of the buffer after it has shifted; realloc is taken to keep the address of the buffer while the record is begun; the size record is little-endian, as on the hosts the server is built for.
- WebSocketConnection.Connection.OnReceive: ends where a delivery would leave the bytes in use; the bytes left behind are then unspecified.
- WebSocketConnection.ReceiveAll: a run ends there too.
- WebSocketConnection.SendClientFrame: the masking key is a parameter, and server frames (unmasked) are printed by the same header function.
- ChunkedConnection.Connection.HandleChunked: does not follow the code past a chunk whose line end is read, or whose data is moved, outside the bytes received; such a call is `stuck`. What the handler answers is a parameter.
- ChunkedBody.ArrivalsAgree: compares no more than the `stuck` flag behind a chunk whose bounds lead outside the bytes.
- ChunkedConnection.ReceiveAll: says nothing about the state once a call is `stuck`.
- MultipartConnection.Connection.ContinuePart: does not model header and boundary-line parsing outside the part-data states; a negative data size is announced with no data, as the bytes it would stand for are not the part's. Buffers are taken to be shorter than 2^31 bytes.
- Sha1.Context.Update: does not follow the code where it would write behind its buffer; the compression rounds of SHA-1 and MD5 are a parameter.
- MemoryBuffer.Mbuf.Resize: the allocator's answer is a parameter; the protocol code above takes allocations as granted, as the source does.
- Base64.EncodeInto: takes lengths as unbounded where the source has `int`.
- CoapMessage.CoapMessage.Parse: option values, token and payload are copied where the source points into the buffer; an option is linked after its length has been checked, where the source links it first and frees it on failure; flags other than the error are left out.
- CoapMessage.CoapMessage.Compose: what the reserved room holds behind the message is unspecified.
- JsonParser.Reader.ReadValue: returns the value where the source fills the node on top of a stack, and says nothing about the partly filled tree of a failed parse; error texts and their positions are left out, the verdict is kept.
- JsonReader.Parse: comments are skipped as tokens and not kept; other feature sets, the second reader and the stream writers are left out.
- JsonRoundTrip.FastRoundTrip: doubles are left out; which texts decodeDouble accepts is a parameter of the reader, and `dropNullPlaceholders` is off.
- JsonWriters.StyledWriter.Write: values carry no comments; array sizes and line lengths are unbounded where the source has 32 bits.
- JsonStrings.CodePointToUtf8: masks and shifts are written as remainders and quotients.
- JsonValue.WellFormed: values are a datatype; the unions, string prefixes and memory of Json::Value are left out.
- UserIndex.Inv: the job-position index is left out, as are profiles with work history; its keys mix letter cases and emptying one deletes a skill key instead, so it has no such invariant. Its keys have a kind of their own that no modelled operation writes.
- UserRuns.RunInv: is about plain profiles and generated ids; for all others `UserRuns.RunAgrees` gives the condition call by call.
- UserSearch.SearchBySkill: requires the agreement; what a lookup that fails throws out of a search is left out.
- PersonStore.PersonManager.SavePerson: ids are unbounded where the source has `long`; a record is stored as a value, its JSON text being the subject of the JSON modules.
- PersonStore.PersonManager.UpdateUser: the fields taken over from the old record are completed before the index changes, which do not look at them; the handler of the database and its errors are left out.
- UserSearch.SearchUsersBy: regular expressions, distance and positions are predicates on a person; searches without a skill list are left out.
- Sockets, the event loop, SSL, DNS, CGI, SSI, DAV, file serving, the HTTP handlers, sessions, notifications, pictures, logging, configuration, the shared server and the clients: input/output and plumbing.
- mg_match_prefix_n, mg_parse_date_string and MQTT parsing: their behaviour has no simpler specification to be held against.
