# go-gbc protocol core, modelled in Dafny

go-gbc is a small Go game-server framework. The byte-level core modelled here has four parts:

- **Frame codec.** A frame is a 14-byte little-endian header (chunkSize u32, mainCmdId u16, subCmdId u16, dataSize u32, dataType u16) followed by `chunkSize - 10` payload bytes. The payload is padded with zeros, and `dataSize + 10` is rounded up to a multiple of 8. `CommandMessage` and `RawMessageImpl` are the same codec twice.
- **Stream filters.** Each filter turns incoming bytes into outgoing bytes:
  - an XOR filter with a rolling mask;
  - a streaming base64 decoder with a 12-byte tuple buffer;
  - a frame extractor, which cuts the stream into frames and sends each complete one to a channel;
  - an older pull-style parser that the connection's read loop drives.
- **Plumbing around the filters:**
  - the input pipeline chains the filters;
  - the handler pipeline fans a message out to handlers;
  - a four-state lifecycle;
  - a connection group;
  - the command registry that maps (mainCmdId, subCmdId) to a protobuf creator.
- **The connection read loop.** It counts failed reads in a row and uses a double buffer.

Every operation is a pure function over immutable datatypes. A call that mutates a Go struct returns the new state. A Go panic (slice out of range, nil dereference) is an error value. A channel send is an entry in a log of sent messages. Go's uint32 arithmetic is written out modulo 2^32 where it can wrap.

Modules, one per source file:

- `Bytes` and `Outcomes` (bytes.dfy) hold the shared pieces:
  - byte and integer widths;
  - Go's `copy`;
  - little-endian fields;
  - `Option`, `Result` and the error values.
- `Frame` (frame.dfy) is the codec of `CommandMessage`.
- `RawMessage` (raw_message.dfy) is the same codec as `RawMessageImpl` states it.
- `XorFilter` (xor_filter.dfy).
- `Base64` (base64.dfy) is the RFC 4648 section 4 decoder the base64 filter calls, plus the encoder the test client uses.
- `Base64Filter` (base64_filter.dfy).
- `InputFilter` (input_filter.dfy) is `RawMessageInputFilter`.
- `Parser` (parser.dfy) is `RawMessageParser`.
- `InputPipeline` (pipeline.dfy) is `BasicInputPipeline`. Its chain is generic over the filter type.
- `State` (state.dfy) is `BasicState`.
- `Group` (group.dfy) is `BasicConnectionGroup`.
- `RawMessagePipeline` (handlers.dfy) is `BasicRawMessagePipeline`.
- `Protoconv` (protoconv.dfy) is `CommandMessageToProto`.
- `Connection` (connection.dfy) is `BasicConnection`.
- `Server` (server.dfy) is the filter chain `main.go` installs and the client encoding of `testwrite.go`.

Where a source bug is logged under Findings, the model keeps two definitions:

- the code as written, in a member whose name ends in `AsWritten`;
- the corrected code, which the rest of the model uses.

## Model

| member | source | states |
|---|---|---|
| Frame.AlignedChunkSize | gbc/impl/CommandMessage.go:172-179 | The padding rule without overflow: the chunk size is a multiple of 8, at least dataSize + 10 and below dataSize + 18. |
| Frame.CalcChunkSize | gbc/impl/CommandMessage.go:172-179 | `calcChunkSize` in uint32 is the padding rule modulo 2^32. It equals the rule when dataSize + 18 ≤ 2^32; for a dataSize within 17 of 2^32 it wraps to 0, 8 or 16. |
| Frame.FromHeaderBufAsWritten | gbc/impl/CommandMessage.go:54-86 | Decoder as written. Fewer than 14 bytes gives HeaderIncomplete, chunkSize > 65536 gives FrameTooLarge, and a chunkSize other than `calcChunkSize(dataSize)` gives ChunkSizeMismatch. On success the fields are read little-endian at offsets 0, 4, 6, 8 and 12, and the buffer and `remains` are `(chunkSize - 10) mod 2^32` with offset 0. If dataSize exceeds the buffer, `DataBytes` panics. |
| Frame.FromHeaderBuf | gbc/impl/CommandMessage.go:54-86 | Corrected decoder. It has the same three error cases, with the padding rule computed without wrap-around. On success the fields are read little-endian, chunkSize is the padded size and at most 65536, and the zeroed buffer has chunkSize - 10 bytes, with remains equal to that and offset 0. The valid bytes fit the buffer: dataSize ≤ buffer length < dataSize + 8. |
| Frame.WriteBytes | gbc/impl/CommandMessage.go:103-113 | Fails exactly when more bytes come than remain, and then nothing changes. Otherwise the bytes land at the offset, the bytes before and after keep their contents, offset grows and remains shrinks by the count, and their sum is kept. |
| Frame.WriteTwice | gbc/impl/CommandMessage.go:103-113 | Two writes that fit equal one write of the concatenation. |
| Frame.DataBytes | gbc/impl/CommandMessage.go:146-148 | Succeeds exactly when dataSize ≤ the buffer length, and then returns the first dataSize bytes. Otherwise it is a slice panic. |
| Frame.GenBytes | gbc/impl/CommandMessage.go:131-142 | The five header fields little-endian, read back at offsets 0, 4, 6, 8 and 12, followed by the whole padded buffer: 14 + buffer length bytes. |
| Frame.GenBytesSplit | gbc/impl/CommandMessage.go:131-142 | The first 14 bytes are the encoded header and the rest is the buffer. |
| Frame.HeaderReadsBack | gbc/impl/CommandMessage.go:133-137 | Each field of an encoded header reads back to the value written. |
| Frame.FromData | gbc/impl/CommandMessage.go:88-101 | Ids and type are kept, and the message is complete (remains 0). Without wrap, dataSize is the payload length, chunkSize is its padded size, and the buffer is the payload followed by zeros up to chunkSize - 10 bytes. |
| Frame.PaddedCopy | gbc/impl/CommandMessage.go:97-98 | Copying the payload into a zeroed buffer at least as long yields the payload followed by zeros. |
| Frame.AcceptedReceiving | gbc/impl/CommandMessage.go:70-84 | An accepted header yields a message ready to be filled: well-formed, offset + remains equal to the buffer length, and remains > 0. |
| Frame.FromDataWellFormed | gbc/impl/CommandMessage.go:88-101 | The encoder's message has a chunkSize the decoder admits exactly when the payload has at most 65526 bytes. |
| Frame.EncodedHeaderAccepted | gbc/impl/CommandMessage.go:54-101 | The decoder accepts the header of an encoded message exactly when its payload has at most 65526 bytes. |
| Frame.RoundTrip | gbc/impl/CommandMessage.go:54-148 | For a payload of at most 65526 bytes, `GenBytes` gives 4 + chunkSize bytes. The first 14 of them decode, and writing the rest fills the message exactly. The ids, type and `DataBytes` come back unchanged. |
| Frame.EmptyPayloadFrame | gbc/impl/CommandMessage.go:172-179 | An empty payload gives chunkSize 16, six zero padding bytes and a 20-byte frame. A header claiming chunkSize 10 for dataSize 0 is refused. |
| Frame.HeaderDecodes | gbc/impl/CommandMessage.go:54-86 | Any encoded header is refused as too large when chunkSize > 65536, or refused as mismatched when chunkSize is not the padded size of dataSize. Otherwise it decodes to exactly its fields, with a zeroed buffer of chunkSize - 10 bytes still to fill. |
| Frame.HeaderDecodesAsWritten | gbc/impl/CommandMessage.go:54-86 | The same for the code as written: the check uses the wrapping `calcChunkSize`, and the buffer has (chunkSize - 10) mod 2^32 bytes. |
| Frame.WrappedHeaderAccepted | gbc/impl/CommandMessage.go:70-86 | As written, the header chunkSize 16 with dataSize 0xFFFFFFFF is accepted with a 6-byte buffer, and its `DataBytes` panics. |
| Frame.WrappedBufferSize | gbc/impl/CommandMessage.go:70-84 | As written, a header with chunkSize 0 and dataSize from 2^32 - 17 to 2^32 - 10 is accepted, and the remains of 0 - 10 wrap to 2^32 - 10. |
| Frame.WrappedHeaderRefused | gbc/impl/CommandMessage.go:70-73 | The corrected decoder refuses the wrapped header chunkSize 16 with dataSize 0xFFFFFFFF. |
| Frame.DecodersDifferOnlyOnWrap | gbc/impl/CommandMessage.go:172-179 | The two decoders differ exactly on headers whose dataSize is within 17 of 2^32 and whose chunkSize equals the wrapped `calcChunkSize`. |
| RawMessage.CalcChunkSize | gbc/impl/RawMessageImpl.go:161-168 | The copy's `calcChunkSize`: without wrap, a multiple of 8 from dataSize + 10 to below dataSize + 18. With wrap, below 24. |
| RawMessage.FromHeaderBuf | gbc/impl/RawMessageImpl.go:51-83 | Fails exactly for a short input, chunkSize > 65536 or a chunkSize mismatch. Fields are read little-endian and the buffer has `(chunkSize - 10) mod 2^32` bytes. Away from the wrap it is the corrected `Frame` decoder. |
| RawMessage.FromData | gbc/impl/RawMessageImpl.go:85-98 | Ids and type are kept. Without wrap, dataSize is the payload length, the payload is at the front of a buffer of chunkSize - 10 bytes, and zeros follow. |
| RawMessage.WriteBytes | gbc/impl/RawMessageImpl.go:100-110 | An overrun is a BufferOverrun error. Otherwise offset + remains is preserved, the bytes land at the offset, and every other byte is kept. |
| RawMessage.DataBytes | gbc/impl/RawMessageImpl.go:122-124 | The first dataSize bytes when they exist, a slice panic otherwise. |
| RawMessage.GenBytes | gbc/impl/RawMessageImpl.go:126-137 | The encoded header followed by the buffer. A well-formed message takes 4 + chunkSize bytes. |
| RawMessage.RoundTrip | gbc/impl/RawMessageImpl.go:51-137 | The copy's own encode, decode and fill reproduce ids, type and payload for payloads of at most 65526 bytes. |
| XorFilter.NewFilter | gbc/impl/XORFilter.go:33-39 | A new filter keeps the mask and starts at offset 0. |
| XorFilter.Xor | gbc/impl/XORFilter.go:46 | XOR with the same mask byte undoes the mask. |
| XorFilter.XorBitsCancel | gbc/impl/XORFilter.go:46 | Bitwise XOR twice with the same value is the identity. |
| XorFilter.XorBitsBound | gbc/impl/XORFilter.go:46 | The XOR of two k-bit values is a k-bit value, so a byte stays a byte. |
| XorFilter.Next | gbc/impl/XORFilter.go:47 | The next offset is (offset + 1) mod mask length and stays inside the mask. |
| XorFilter.Advance | gbc/impl/XORFilter.go:47 | An offset advanced any number of times stays inside the mask. |
| XorFilter.AdvanceMod | gbc/impl/XORFilter.go:44-48 | Advancing an offset i times by line 47's step lands on (offset + i) mod mask length. |
| XorFilter.AdvanceAdd | gbc/impl/XORFilter.go:44-48 | Advancing by i + j is advancing by i, then by j. |
| XorFilter.WriteBytes | gbc/impl/XORFilter.go:43-50 | Fails only with an empty mask and non-empty input (the index panic of line 46). Otherwise the output is as long as the input, the mask is kept, and the new offset is (offset + input length) mod mask length. |
| XorFilter.MasksEachByte | gbc/impl/XORFilter.go:43-49 | Output byte i is input byte i XOR the mask at (offset + i) mod mask length. |
| XorFilter.SplitIndependent | gbc/impl/XORFilter.go:44-48 | Writing a then b through one filter gives the same bytes and state as writing a ++ b. |
| XorFilter.WriteStep | gbc/impl/XORFilter.go:44-48 | The first byte is masked at the current offset and the rest is processed from the next offset. |
| XorFilter.Involution | gbc/impl/XORFilter.go:46 | Two filters with the same mask and offset, applied in sequence, restore the input. |
| Base64.CharValue | gbc/impl/Base64DecodeFilter.go:113 | Every byte maps to a 6-bit value of the standard alphabet, or to -1 if it is outside it. |
| Base64.DecodeGroup | gbc/impl/Base64DecodeFilter.go:113 | Four alphabet characters give three bytes, `xx==` gives one byte and `xxx=` two, and anything else is bad. |
| Base64.Decode | gbc/impl/Base64DecodeFilter.go:113 | Decoding yields at most 3 bytes per 4 characters, and empty input decodes to nothing without error. |
| Base64.DecodeAlphabet | gbc/impl/Base64DecodeFilter.go:113 | Alphabet-only input decodes to 3 bytes per whole group, and is corrupt exactly when a partial group trails. |
| Base64.DecodeAppend | gbc/impl/Base64DecodeFilter.go:113 | Whole alphabet groups in front decode independently of what follows. |
| Base64.DecodeNoPadding | gbc/impl/Base64DecodeFilter.go:113 | Whole groups without padding decode with an error exactly when some character is outside the alphabet. |
| Base64.AlphabetConcat | gbc/impl/Base64DecodeFilter.go:113 | A concatenation is all-alphabet exactly when both parts are. |
| Base64.DecodeWholeGroups | gbc/impl/Base64DecodeFilter.go:113 | A trailing partial group of alphabet characters adds no bytes. |
| Base64.Char | testwrite.go:46 | The alphabet character chosen for a 6-bit value decodes back to that value. |
| Base64.Encode | testwrite.go:46 | The encoding has 4 characters per started group of 3 bytes, and is non-empty for non-empty input. |
| Base64.JoinSplit | testwrite.go:46 | Splitting three bytes into four 6-bit values and joining them restores the bytes. |
| Base64.QuadDecodes | testwrite.go:46 | An encoded full group decodes to its three bytes. |
| Base64.PairDecodes | testwrite.go:46 | An encoded two-byte tail (`xxx=`) decodes to its two bytes. |
| Base64.SingleDecodes | testwrite.go:46 | An encoded one-byte tail (`xx==`) decodes to its byte. |
| Base64.EncodeDecode | testwrite.go:46 | Decoding undoes encoding for every byte string, without reporting corruption. |
| Base64.PaddedThenMore | gbc/impl/Base64DecodeFilter.go:113 | An encoding that ends in `=` must end the input: anything after it makes the decode corrupt, after the encoded bytes. |
| Base64Filter.NewFilter | gbc/impl/Base64DecodeFilter.go:44-52 | A new filter has nothing pending. |
| Base64Filter.FillTupleBuffer | gbc/impl/Base64DecodeFilter.go:54-69 | With nothing buffered it takes nothing and changes nothing. Otherwise it takes min(input length, 12 - tupleAvail) bytes, appends them to the pending characters, and tupleAvail stays at most 12. A count beyond 12 is a slice panic. |
| Base64Filter.DecodeTupleBuffer | gbc/impl/Base64DecodeFilter.go:71-88 | Below 4 buffered characters it does nothing. Otherwise it decodes exactly the largest multiple-of-4 prefix and keeps the old count mod 4 characters, moved to the head. |
| Base64Filter.WriteBytesAsWritten | gbc/impl/Base64DecodeFilter.go:90-119 | As written. A call that starts with fewer than 4 characters pending never errs, so the "unknown error" is unreachable. If the top-up took all the input, the result is the tuple-buffer decode. Otherwise it is that decode followed by the direct decode of the rest. An oversized count panics. |
| Base64Filter.RestAsWritten | gbc/impl/Base64DecodeFilter.go:112-118 | As written: the output is the tuple-buffer decode plus the rest's decode. The consumed count is reckoned as `decodeLen2 * 8 / 6`, and tupleAvail grows by everything after it. What fits is stashed. |
| Base64Filter.WriteBytes | gbc/impl/Base64DecodeFilter.go:90-119 | Corrected: the tuple buffer's decode error is reported, not discarded. From a settled filter (fewer than 4 characters pending) the filter stays settled and never panics or reports the unknown error. An oversized count is still a slice panic. |
| Base64Filter.Rest | gbc/impl/Base64DecodeFilter.go:112-118 | Corrected direct decode. It decodes only whole groups and errs exactly when they are corrupt, changing nothing in that case. Otherwise it outputs the tuple-buffer bytes followed by their decode, and the filter ends settled. |
| Base64Filter.RestPending | gbc/impl/Base64DecodeFilter.go:114-116 | Corrected: exactly the trailing partial group is left pending. |
| Base64Filter.FreshIsRest | gbc/impl/Base64DecodeFilter.go:96-100 | With nothing buffered, a non-empty call goes straight to the direct decode. |
| Base64Filter.StepInvariant | gbc/impl/Base64DecodeFilter.go:90-119 | From a settled filter, on characters without padding, one call fails (with the corrupt-input error) exactly when the whole groups of the pending characters followed by the input hold a stray byte. Otherwise it decodes exactly those groups and keeps the trailing partial group pending. |
| Base64Filter.StepFresh | gbc/impl/Base64DecodeFilter.go:96-118 | The same, starting with nothing pending. |
| Base64Filter.StepWithinTuple | gbc/impl/Base64DecodeFilter.go:95-100 | The same, when the pending characters and the whole input fit into the tuple buffer. |
| Base64Filter.StepPastTuple | gbc/impl/Base64DecodeFilter.go:95-118 | The same, when input remains after the tuple buffer: a stray byte in the buffer or in the whole groups of the rest is reported. |
| Base64Filter.FullTuple | gbc/impl/Base64DecodeFilter.go:54-87 | A call that overflows the tuple buffer fills it to 12 characters. Their decode is corrupt exactly when one is a stray byte; otherwise it gives 9 bytes, no more than the characters taken. |
| Base64Filter.RestDecodes | gbc/impl/Base64DecodeFilter.go:112-118 | The direct decode from an empty buffer achieves the same. |
| Base64Filter.WholeNoPadding | gbc/impl/Base64DecodeFilter.go:113 | Whole groups of characters without padding decode with an error exactly when they hold a stray byte. |
| Base64Filter.RunChecks | gbc/impl/Base64DecodeFilter.go:90-119 | However a stream without padding is cut into calls, the run fails exactly when the whole groups of the pending characters and the stream hold a stray byte. Otherwise the outputs concatenate to their decode, and the trailing partial group is pending. |
| Base64Filter.RunCons | gbc/impl/Base64DecodeFilter.go:90-119 | One call that decodes its groups, followed by a run that decodes the rest, decodes the groups of the whole stream. |
| Base64Filter.ThenGroups | gbc/impl/Base64DecodeFilter.go:90-119 | Two successful decoding steps in sequence decode the groups of the concatenated characters, with concatenated outputs. |
| Base64Filter.FirstFails | gbc/impl/Base64DecodeFilter.go:90-119 | A step that finds a stray byte in its groups also finds one in the groups of any extension. |
| Base64Filter.GroupsJoin | gbc/impl/Base64DecodeFilter.go:113-116 | The whole groups of a call's characters and the rest of the stream are the call's whole groups followed by those of its leftover and the rest. |
| Base64Filter.StreamChecks | gbc/impl/Base64DecodeFilter.go:90-119 | A new filter fed a stream without padding, in any chunks, fails exactly when the stream's whole groups hold a stray byte. |
| Base64Filter.RunDecodes | gbc/impl/Base64DecodeFilter.go:90-119 | However an alphabet stream is cut into calls, the outputs concatenate to the decode of the pending characters followed by the whole stream, without error. |
| Base64Filter.StreamDecodes | gbc/impl/Base64DecodeFilter.go:90-119 | A new filter fed an alphabet stream in any chunks outputs the decode of the whole stream. |
| Base64Filter.AlphabetCount | gbc/impl/Base64DecodeFilter.go:114 | On alphabet input, `decodeLen2 * 8 / 6` is exactly the number of characters in whole groups. |
| Base64Filter.AgreesOnAlphabet | gbc/impl/Base64DecodeFilter.go:90-119 | From a settled filter whose pending characters and input are all in the alphabet, the code as written and the corrected code do the same. |
| Base64Filter.RestAgrees | gbc/impl/Base64DecodeFilter.go:112-118 | The two direct decodes agree on alphabet input. |
| Base64Filter.PastBuffer | gbc/impl/Base64DecodeFilter.go:103-113 | When input remains after the tuple buffer, both versions continue with an empty tuple buffer into their direct decodes. |
| Base64Filter.GarbageThenPanic | gbc/impl/Base64DecodeFilter.go:114-116 | As written, 13 non-alphabet bytes leave tupleAvail at 13, and the next call panics. |
| Base64Filter.GarbageRefused | gbc/impl/Base64DecodeFilter.go:114-116 | Corrected, the same bytes are reported as corrupt and the filter stays settled. |
| Base64Filter.PaddingStashed | gbc/impl/Base64DecodeFilter.go:114-116 | As written, `QQ==` decodes to `A` but leaves `Q==` pending, so a following `QUJD` yields nothing. |
| Base64Filter.StrayTupleDropped | gbc/impl/Base64DecodeFilter.go:96-100 | As written, `!` then `!!!` gives no error and no output: the corrupt group completed in the tuple buffer is dropped silently. |
| Base64Filter.StrayTupleReported | gbc/impl/Base64DecodeFilter.go:96-100 | Corrected, the second call reports the corrupt input. |
| Base64Filter.PaddedTupleDropped | gbc/impl/Base64DecodeFilter.go:96-100 | As written, `QQ` then `==QUJD` gives `A` with no error, and `ABC` is lost. |
| Base64Filter.PaddedTupleReported | gbc/impl/Base64DecodeFilter.go:96-100 | Corrected, the second call reports the corrupt input. |
| Base64Filter.TupleErrorDropped | gbc/impl/Base64DecodeFilter.go:96-100 | As written, a call that fits into a non-empty tuple buffer returns the decode of its whole groups with no error, whatever the decoder reported. |
| Base64Filter.TupleErrorReported | gbc/impl/Base64DecodeFilter.go:96-100 | Corrected, the same call reports corrupt input whenever those groups decode with an error. |
| Base64Filter.StashesShort | gbc/impl/Base64DecodeFilter.go:112-116 | As written, a fresh filter given fewer than 4 characters outputs nothing and keeps them all pending. |
| Base64Filter.KeepsShort | gbc/impl/Base64DecodeFilter.go:112-116 | Corrected, the same. |
| Base64Filter.PaddingConsumed | gbc/impl/Base64DecodeFilter.go:114-116 | Corrected, `QQ==` leaves nothing pending, and `QUJD` then yields `ABC`. |
| InputFilter.NewFilter | gbc/impl/RawMessageInputFilter.go:38-43 | A new extractor is idle (no header bytes, no message) and has no channel. |
| InputFilter.SetReceiver | gbc/impl/RawMessageInputFilter.go:103-105 | Sets the channel and nothing else. |
| InputFilter.WriteBytes | gbc/impl/RawMessageInputFilter.go:47-101 | Keeps the state valid and the channel unchanged. Every message sent is complete, and one is sent only with a channel set. The only errors are a refused header or a send without a channel, and after either the filter is idle. Empty input changes nothing. |
| InputFilter.HeaderFill | gbc/impl/RawMessageInputFilter.go:52-69 | Header accumulation keeps the same guarantees. |
| InputFilter.HeaderShort | gbc/impl/RawMessageInputFilter.go:53-65 | Input that leaves the header incomplete is copied in at the header offset and the call returns with nothing sent and no error. |
| InputFilter.HeaderReady | gbc/impl/RawMessageInputFilter.go:71-76 | Handling a complete header keeps the guarantees of `WriteBytes`: a valid state, the same channel, only complete messages sent, and after any error the filter is idle. |
| InputFilter.HeaderAccepted | gbc/impl/RawMessageInputFilter.go:71-77 | An accepted header starts filling the message it announces with the rest of the input. |
| InputFilter.Feed | gbc/impl/RawMessageInputFilter.go:79-97 | Feeding payload into the current message keeps the guarantees of `WriteBytes`. Because it writes at most what remains, the message's overrun error never reaches the caller. |
| InputFilter.FeedKeeps | gbc/impl/RawMessageInputFilter.go:79-91 | Fewer bytes than remain are written into the message, and nothing is sent. |
| InputFilter.FeedSends | gbc/impl/RawMessageInputFilter.go:93-97 | When the message fills, it is sent, msg is reset, and the rest of the input starts a new header. |
| InputFilter.SplitLaw | gbc/impl/RawMessageInputFilter.go:30-98 | One call on a ++ b does what a call on a followed by a call on b does. |
| InputFilter.RunIsOneCall | gbc/impl/RawMessageInputFilter.go:30-98 | However a stream is cut into calls, the messages sent, final state and error are those of one call on the whole stream. |
| InputFilter.ExtractsFrame | gbc/impl/RawMessageInputFilter.go:47-101 | An idle extractor with a channel, fed one well-formed frame, sends exactly that message and is idle again. |
| InputFilter.ExtractsFrames | gbc/impl/RawMessageInputFilter.go:47-101 | Fed the frames of several well-formed messages, it sends all of them in order without error and ends idle. |
| Parser.NewParser | gbc/impl/RawMessageParser.go:38-44 | A new parser has `newMsg` set, no message and no header bytes. |
| Parser.Append | gbc/impl/RawMessageParser.go:79-88 | Appends min(remains, available) bytes to the message, adds them to the count and cannot overrun. |
| Parser.HeaderStep | gbc/impl/RawMessageParser.go:49-77 | Takes the header decoder as a parameter: the wrapping `NewRawMessageFromHeaderBuf` of line 73 or the corrected one. Consumes at least one byte of non-empty input and never more than given. A refused header leaves no message. An incomplete header copies all the input and returns its length. With the corrected decoder a held message is always still receiving. |
| Parser.WriteBytesAsWritten | gbc/impl/RawMessageParser.go:46-89 | As written, with the wrapping header decoder of line 73: once `newMsg` is set it stays set, so every call starts in header mode. A call consumes at most its input, and at least one byte of non-empty input. Errors are a refused header, or a nil message. |
| Parser.WriteBytes | gbc/impl/RawMessageParser.go:46-89 | Corrected in three ways. Line 72 clears the flag. A header is also started when no message is held or the held one is full, because `FetchMessage` sets the message to nil (lines 94-96) and line 80 would then dereference nil. Headers go through the non-wrapping decoder. The consumed count is at least 1 for non-empty input and at most its length. The only errors are a refused header. |
| Parser.FetchMessage | gbc/impl/RawMessageParser.go:91-98 | Returns the message exactly when it is full, and then clears it. Otherwise it returns nothing and changes nothing. |
| Parser.ParserAccepts | gbc/impl/RawMessageParser.go:52-87 | A call that completes an accepted header consumes the rest of the header plus min(remains, rest) payload bytes and holds the partly filled message. |
| Parser.StepMatches | gbc/impl/RawMessageParser.go:46-98 | One corrected call plus a fetch does, on the bytes it consumed, exactly what the frame extractor does on them. |
| Parser.DriveMatchesExtractor | gbc/impl/RawMessageParser.go:46-98 | Feeding a byte string to the corrected parser until it is consumed logs no error exactly when the extractor fails on none. It then fetches exactly the messages the extractor sends. |
| Parser.DriveAllMatchesExtractor | gbc/impl/RawMessageParser.go:46-98 | The same for a sequence of chunks, against one extractor call on their concatenation. |
| Parser.AsWrittenDropsPayload | gbc/impl/RawMessageParser.go:49-72 | As written, after an accepted header the next call treats payload bytes as a new header and nothing is fetched. |
| Parser.WrappedHeaderFetched | gbc/impl/RawMessageParser.go:73-98 | As written, a 20-byte frame whose header claims chunkSize 16 and dataSize 0xFFFFFFFF is accepted by the wrapping decoder and fetched with a 6-byte buffer, and its `DataBytes` panics. The corrected parser refuses that header with a chunk-size mismatch. |
| Parser.SplitFrameLost | gbc/impl/RawMessageParser.go:49-72 | As written, the 20-byte frame of an empty payload, written as its header and then its padding, is never fetched. |
| Parser.SplitFrameFetched | gbc/impl/RawMessageParser.go:46-98 | Corrected, a well-formed frame cut into any chunks is fetched exactly once, without error. |
| InputPipeline.Chain | gbc/impl/BasicInputPipeline.go:46-62 | The stages that ran are a non-empty prefix, or none if there are no stages, and the stages after it are untouched. No stages gives empty output and no error. |
| InputPipeline.ChainMeaning | gbc/impl/BasicInputPipeline.go:46-62 | Each stage that ran is replaced by its state after running on the previous stage's output. Every stage before the last one run passed non-empty output without error. The chain ends early only because the last stage run stopped it. The output and error are that stage's. |
| InputPipeline.ChainLast | gbc/impl/BasicInputPipeline.go:48-61 | The output and error returned are the last stage run's, and that stage stopped the chain if stages remained. |
| InputPipeline.ChainPasses | gbc/impl/BasicInputPipeline.go:50-58 | Every stage before the last one run neither failed nor produced empty output. |
| InputPipeline.ChainStates | gbc/impl/BasicInputPipeline.go:47-58 | Each stage that ran is replaced by its state after running on its input. |
| InputPipeline.ChainAppend | gbc/impl/BasicInputPipeline.go:46-67 | Running stages a ++ b is running a, then, unless a stopped, b on a's output. |
| InputPipeline.ChainThree | gbc/impl/BasicInputPipeline.go:46-62 | With three stages, where the first two pass output along, all three run. The result is the third one's output and error, and every stage's messages are collected. |
| InputPipeline.RunStage | gbc/impl/BasicInputPipeline.go:48 | A filter call keeps the filter valid and of its kind. The frame extractor outputs no bytes and keeps its channel, and the other filters send nothing. |
| InputPipeline.NewPipeline | gbc/impl/BasicInputPipeline.go:37-42 | A new pipeline has no filters and no channel. |
| InputPipeline.WriteBytes | gbc/impl/BasicInputPipeline.go:46-62 | The pipeline's call is the chain over its filters. It keeps every filter valid and every sender bound to the pipeline's channel. |
| InputPipeline.StagesKept | gbc/impl/BasicInputPipeline.go:46-62 | A call keeps every stage valid and of its kind, and a sender keeps its channel. |
| InputPipeline.Setup | gbc/impl/BasicInputPipeline.go:78-83 | A message sender gets the pipeline's channel, and any other filter is unchanged. |
| InputPipeline.Append | gbc/impl/BasicInputPipeline.go:64-67 | The filter is set up with the current channel and goes last, after the unchanged existing filters. |
| InputPipeline.SetRawMessageReceiver | gbc/impl/BasicInputPipeline.go:69-74 | Stores the channel and pushes it to every message sender. Other filters are untouched. |
| InputPipeline.SetupAll | gbc/impl/BasicInputPipeline.go:71-73 | Every filter is set up, position by position. |
| State.NewBasicState | gbc/impl/BasicState.go:42-48 | A new lifecycle starts at Idle. |
| State.LastIsFirst | gbc/impl/BasicState.go:45 | The table's last entry equals its first, so `seq[i+1]` stays in bounds. |
| State.ScanDecides | gbc/impl/BasicState.go:55-64 | The table walk succeeds exactly when the current state has no successor, or its successor is the requested state. |
| State.To | gbc/impl/BasicState.go:54-68 | Succeeds exactly when the current state has no successor or `next` is its successor. On success the state becomes `next`; on failure it is unchanged. |
| State.StaysInCycle | gbc/impl/BasicState.go:54-68 | A state in the cycle stays in it. |
| State.NoSelfTransition | gbc/impl/BasicState.go:54-68 | A transition from a state to itself fails. |
| State.FullCycle | gbc/impl/BasicState.go:54-68 | Idle → Starting → Running → Stopping → Idle all succeed, and the lifecycle returns to its initial state. |
| Group.NewGroup | gbc/impl/BasicConnectionGroup.go:44-51 | A new group has no members and no close calls. |
| Group.AddConnection | gbc/impl/BasicConnectionGroup.go:55-66 | Adding a member fails and changes nothing. Adding a newcomer binds it to the group channel and inserts it; no other connection's channel changes. |
| Group.RemoveConnection | gbc/impl/BasicConnectionGroup.go:68-79 | Removing a non-member fails and changes nothing. Removing a member unbinds it and deletes it; the others are untouched. |
| Group.Unbind | gbc/impl/BasicConnectionGroup.go:87-89 | Every connection enumerated is unbound, and every other one keeps its channel. |
| Group.RemoveAllConnections | gbc/impl/BasicConnectionGroup.go:81-90 | Membership becomes empty, every former member is unbound, and none is closed. |
| Group.CloseAllConnections | gbc/impl/BasicConnectionGroup.go:92-105 | Membership becomes empty, every former member is unbound, and the close calls are the members in enumeration order. |
| Group.CloseEachAppends | gbc/impl/BasicConnectionGroup.go:98-104 | The loop appends one close call per connection, in order. |
| Group.ClosedOnce | gbc/impl/BasicConnectionGroup.go:92-105 | Every former member is closed exactly once, and nothing else is closed. |
| Group.AddThenRemove | gbc/impl/BasicConnectionGroup.go:55-79 | Adding a newcomer and removing it again restores the membership and leaves it unbound. |
| RawMessagePipeline.NewPipeline | gbc/impl/BasicRawMessagePipeline.go:37-42 | A new pipeline has no handlers. |
| RawMessagePipeline.WriteRawMessage | gbc/impl/BasicRawMessagePipeline.go:46-54 | The pipeline's own handlers see the message as a prefix of their order. It is accepted exactly when every one of them accepts it; otherwise the error is the answer of the last handler that saw it. This is `Deliver` over the pipeline's handlers. |
| RawMessagePipeline.Append | gbc/impl/BasicRawMessagePipeline.go:74-76 | The handler goes last and the others keep their order. |
| RawMessagePipeline.Deliver | gbc/impl/BasicRawMessagePipeline.go:46-54 | The handlers that see the message are a prefix, in order, and all but the last of them accepted it. The result is nil exactly when every handler accepts, and then all saw it. Otherwise it is the error of the last handler that saw the message. |
| RawMessagePipeline.AppendedHandler | gbc/impl/BasicRawMessagePipeline.go:46-54 | An appended handler sees the message exactly when all earlier handlers accepted it, and then its answer is the result. |
| RawMessagePipeline.Stop | gbc/impl/BasicRawMessagePipeline.go:56-60 | Every handler is stopped, in order, with no early exit. |
| RawMessagePipeline.StopAll | gbc/impl/BasicRawMessagePipeline.go:56-60 | One stop call per handler, position by position. |
| Protoconv.GenKey | gbc/protoconv/CommandMessageToProto.go:46-50 | The key is below 2^32. Both ids are recoverable from it: the main id mod 2^16 in the upper half, the sub id mod 2^16 in the lower. |
| Protoconv.KeyInjective | gbc/protoconv/CommandMessageToProto.go:46-50 | Two id pairs share a key exactly when they agree modulo 2^16. |
| Protoconv.KeyAliases | gbc/protoconv/CommandMessageToProto.go:47-48 | Ids that differ by multiples of 2^16 collide. |
| Protoconv.Register | gbc/protoconv/CommandMessageToProto.go:21-31 | Fails exactly when the key is taken, and then keeps the existing entry. Otherwise it stores the creator under the key and changes no other key. |
| Protoconv.Lookup | gbc/protoconv/CommandMessageToProto.go:33-39 | Finds the creator registered under the message's key exactly when the key is registered. Otherwise it reports CommandNotFound. |
| Protoconv.RegisterThenLookup | gbc/protoconv/CommandMessageToProto.go:21-39 | After a registration, a message with those ids finds that creator, and registering the same ids again is refused. |
| Protoconv.RegisterOtherKeepsLookup | gbc/protoconv/CommandMessageToProto.go:21-39 | Registering other ids does not change what a message finds. |
| Connection.NewConnection | gbc/impl/BasicConnection.go:40-46 | A new connection has no channel and a fresh parser. |
| Connection.SetMessageChan | gbc/impl/BasicConnection.go:48-50 | Stores the channel and keeps the parser. |
| Connection.ParserCall | gbc/impl/BasicConnection.go:90-100 | One inner-loop step consumes at least one byte of non-empty input and never more than it is given. |
| Connection.ParserProgress | gbc/impl/BasicConnection.go:89-92 | The parser's step makes progress on every input, so the inner loop terminates. |
| Connection.DriveWithParser | gbc/impl/BasicConnection.go:89-101 | The inner loop with the frame parser is the parser fed until every byte is consumed. |
| Connection.Run | gbc/impl/BasicConnection.go:62-106 | Reference loop, one read at a time. It never uses more reads than there are, and runs out of reads only after using all of them. |
| Connection.ReadInto | gbc/impl/BasicConnection.go:75 | A read lands in the window at the offset, and the rest of the buffer is kept. |
| Connection.ParseRead | gbc/impl/BasicConnection.go:89-101 | Parsing the bytes just read from the buffer is the inner loop on those bytes, and the offset moves past them. |
| Connection.ReadLoop | gbc/impl/BasicConnection.go:62-106 | The loop over a double buffer, where each read lands at the current offset and parsing continues from there, returns exactly what the reference loop returns for the same reads. |
| Connection.ConnectionLoop | gbc/impl/BasicConnection.go:62-106 | A connection's loop with its frame parser is the reference loop, and the connection's channel is never touched. |
| Connection.RunFeeds | gbc/impl/BasicConnection.go:75-101 | The loop leaves the parser, fetches and logs errors exactly as the parser fed every non-failed read in order. |
| Connection.ReadLoopMatchesExtractor | gbc/impl/BasicConnection.go:62-106 | However the stream is split and whichever reads fail, the loop logs no parse error exactly when the frame extractor, given all accepted bytes at once, stops on none. It then fetches exactly the messages the extractor sends. |
| Connection.StopIndependentOfParser | gbc/impl/BasicConnection.go:62-106 | When and why the loop stops, and the failure count, do not depend on the parser: parse errors never stop it. |
| Connection.FailuresStop | gbc/impl/BasicConnection.go:70-80 | From a count `failure`, `limit - failure` failed reads in a row stop the loop, with nothing parsed. |
| Connection.CountsFailures | gbc/impl/BasicConnection.go:76-86 | A failed read adds one to the count and its bytes are dropped. A read without error is parsed and clears the count. |
| Connection.EndOfStream | gbc/impl/BasicConnection.go:81-89 | An empty read at end of stream ends the loop. A read at end of stream with bytes is parsed, leaves the count unchanged, and the loop goes on. |
| Server.ServerPipeline | main.go:59-65 | The server's pipeline holds the channel, its filters are valid, and its sender is bound. |
| Server.ServerStages | main.go:61-63 | Base64 decoder, XOR filter with mask 0xff, frame extractor with the channel, in that order. |
| Server.Base64Decodes | testwrite.go:42-46 | A base64 filter with nothing pending turns the client's encoding back into the masked bytes in one call. |
| Server.ThreeStages | main.go:61-63 | For any starting states, the three filters decode the client's encoding of well-formed frames and send exactly those messages. |
| Server.ServesClientFrames | main.go:59-65 | End to end, for one copy of the client's encoding arriving in a single call: the server pipeline, given what the test client sends for well-formed frames, runs all three filters without error and sends exactly those messages, in order. |
| Server.RepeatedCopyRefused | testwrite.go:52-66 | Two copies of a padded client encoding in one call: the base64 stage reports corrupt input, the chain stops after it, and nothing is sent. |
| Server.RepeatedCopyCorrupt | gbc/impl/Base64DecodeFilter.go:113 | A fresh base64 filter given two copies of a padded encoding in one call reports corrupt input. |

## Left out

- The Lua library, the Lua handlers, `BasicMessagePipeline`, `BasicRawMessageHandler`, `ConcurrenceMessageHandler` and `BasicConnectionManager` are not part of this model. They are goroutines, a foreign runtime, reflection and socket plumbing.
- Concurrency is not modelled:
  - the goroutine fan-out of `BasicRawMessagePipeline.WaitForComplete`;
  - the group's mutex;
  - blocking on channels.
  A channel send becomes an entry in a log. A send with no channel set (which blocks forever in Go) is the `Blocked` error.
- `proto.Unmarshal` after the registry lookup, every `String()` method and all logging are left out. Logged errors become a list of errors where the loop keeps them.
- Accessors (`RemainsBytes`, `DataType`, the id getters) and `State.Current` are field reads of the datatypes. They have no contract of their own.
- Go's `base64.StdEncoding.Decode` is replaced by a decoder specified by section 4 of RFC 4648. It stops at the first bad group, keeps the bytes of the groups before it, and reports corruption. The exact count Go returns for bad input within a group is not modelled.
- `BasicConnection.loop` has these simplifications:
  - the socket is a finite sequence of read results, and the loop also ends when it runs out;
  - the read size and the failure limit are parameters, because their values are defined outside the modelled files;
  - `Fits` says no read returns more than its window, which is the contract of `io.Reader`.
- The input pipeline's filter list is closed over the three filters of the program. The generic chain covers any filter type. `RunStage`'s refusal of an invalid stage is a guard for states no constructor makes.
- `Frame.WriteBytes`, `InputFilter.WriteBytes`, `Parser.WriteBytes` and `Base64Filter.WriteBytes` require the state invariant their constructors establish and their calls keep. The source relies on it without checking it.
- XorFilter.WriteBytes: returns the masked bytes as a new sequence. `XORFilter.go:44-46` writes them into the caller's input slice, so the caller's input is overwritten; that aliasing is not modelled.
- Base64.DecodeGroup: treats `\r` and `\n` as bad characters. Go's `StdEncoding.Decode` skips them anywhere in its input, so `QU\nJD` decodes to `ABC` in Go and is corrupt here. The test client's encoder emits no line breaks.
- Base64.Decode: inherits that difference. Input with `\r` or `\n` is reported corrupt where Go decodes around them.
- Aliasing in the base64 filter is not modelled. The source decodes into its own input slice, and the guard `used >= decodeLen1` keeps that from overwriting unread characters. The model computes the output as a new sequence.
- `main.go` builds a connection with a filter pipeline, while the `BasicConnection` in these files holds a parser. The `Server` module models the filter chain that `main.go` appends. It does not model the connection it is attached to.
- A header claiming chunkSize 10 for an empty payload is refused, because `calcChunkSize(0)` is 16 (`Frame.EmptyPayloadFrame`).
- RawMessage.CalcChunkSize: states only that a wrapped result is below 24. The exact values 0, 8 or 16 are stated on `Frame.CalcChunkSize`, which it equals.
- Base64Filter.WriteBytes: states exactly when an error is reported only for input without padding (`StepInvariant`, `RunChecks`). A padded group is decoded together with the other whole groups of its call, so whether data after `=` is an error depends on where the calls are cut, as with Go's per-call decode. `QQ==QUJD` in one call is corrupt, while `QQ==` then `QUJD` gives `A` then `ABC` (`PaddingConsumed`).
- InputFilter.WriteBytes: runs the corrected header decoder. `RawMessageInputFilter.go:73` uses the wrapping `NewRawMessageFromHeaderBuf`, so on a header with chunkSize 16 and dataSize 0xFFFFFFFF the program sends a message after 20 bytes whose `DataBytes` panics (`Frame.WrappedHeaderAccepted`).
- InputFilter.HeaderFill: the same; its guarantees are those of the corrected header decoder.
- InputFilter.HeaderReady: the same; with the wrapping decoder of line 73 the message it starts can hold a dataSize beyond its buffer.
- Parser.HeaderStep: its guarantee that a held message is still receiving holds only for the corrected decoder. With the wrapping decoder of `RawMessageParser.go:73` a wrapped header yields a message whose `DataBytes` panics (`Parser.WrappedHeaderFetched`).
- Connection.ConnectionLoop: drives the corrected parser. `BasicConnection.go:90` drives the parser as written, which never fetches a frame split after its header (`Parser.SplitFrameLost`) and accepts wrapped headers (`Parser.WrappedHeaderFetched`).
- Connection.ReadLoopMatchesExtractor: the same; the program's loop, with the parser as written, does not match the extractor.
- Connection.ParserCall: one inner-loop step of the corrected parser; `BasicConnection.go:90` calls the parser as written.
- Connection.Run: is the reference the buffered loop is proved against. Its own contract states only bounds on reads used, and its meaning is given by `RunFeeds`, `FailuresStop`, `CountsFailures`, `EndOfStream` and `StopIndependentOfParser`.
- Server.ServesClientFrames: covers one copy of the client's encoding, arriving in a single call. The test client cuts each copy into random chunks (testwrite.go:58-66), and the composed chain is not proved for chunked delivery. It also sends `count` copies back to back (testwrite.go:22-29, 52). When the framed bytes are not a multiple of 3, each copy ends in `=`, and the data after it is corrupt for `Base64.Decode`, as it is for Go's `StdEncoding.Decode` (`Server.RepeatedCopyRefused`).
- Server.ThreeStages: covers the whole stream arriving in one call. Splitting across calls is covered per filter, by `Base64Filter.RunDecodes`, `XorFilter.SplitIndependent` and `InputFilter.RunIsOneCall`, but not for the composed chain.

## Findings

| source | as written | input that shows it | evidently intended | confidence | as-written member | corrected member |
|---|---|---|---|---|---|---|
| gbc/impl/CommandMessage.go:172-179 | `calcChunkSize` adds 10 to dataSize in uint32, so a dataSize within 17 of 2^32 wraps to a chunk size of 0, 8 or 16. That passes the check at lines 70-73. The same code is at gbc/impl/RawMessageImpl.go:161-168. | header with chunkSize 16 and dataSize 0xFFFFFFFF: accepted with a 6-byte buffer, and `DataBytes` slices past its end | such a header is refused, and dataSize never exceeds the buffer | high; not executed | Frame.WrappedHeaderAccepted | Frame.FromHeaderBuf |
| gbc/impl/Base64DecodeFilter.go:114-116 | The characters consumed are reckoned from the decoded length, and tupleAvail grows by every character after them, while `copy` truncates to the 12-byte buffer. | 13 bytes `!` to a new filter: tupleAvail becomes 13, and the next call panics on `tupleBuff[13:]` | only a trailing partial group (fewer than 4 characters) is stashed, and corrupt input is reported | high; not executed | Base64Filter.GarbageThenPanic | Base64Filter.WriteBytes |
| gbc/impl/Base64DecodeFilter.go:114-116 | After a padded group the padding characters count as unconsumed and are stashed. | `QQ==` then `QUJD`: the first call gives `A` and stashes `Q==`, and the second gives nothing instead of `ABC` | a complete padded group is consumed, and the next call decodes on its own | medium; not executed | Base64Filter.PaddingStashed | Base64Filter.PaddingConsumed |
| gbc/impl/RawMessageParser.go:72 | Line 72 sets `newMsg` to true again, so it is never false and every call starts a new header. | the 20-byte frame of an empty payload, written as its 14 header bytes and then its 6 padding bytes: never fetched | line 72 clears the flag; a header then starts only when no message is held or the held one is full, since `FetchMessage` sets the message to nil (lines 94-96) and line 80 would dereference it; and headers go through the non-wrapping decoder (see the `calcChunkSize` row). A message whose payload arrives in a later call is then completed and fetched | high; not executed | Parser.SplitFrameLost | Parser.SplitFrameFetched |
| gbc/impl/Base64DecodeFilter.go:96 | `decodeLen1, _ :=` discards the decoder's error for the groups completed in the tuple buffer. | `QQ` then `==QUJD`: `A` with no error, and `ABC` is lost; `!` then `!!!`: no error and no output | the tuple buffer's decode error is returned | medium; not executed | Base64Filter.PaddedTupleDropped | Base64Filter.PaddedTupleReported |
