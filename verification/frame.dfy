/** The frame codec of `CommandMessage` (and of its line-for-line copy
    `RawMessageImpl`).

    A frame on the wire is a 14-byte little-endian header
      chunkSize u32 | mainCmdId u16 | subCmdId u16 | dataSize u32 | dataType u16
    followed by `chunkSize - 10` payload bytes, of which the first `dataSize`
    are valid and the rest are zero padding. `chunkSize` counts every byte
    after the chunkSize field itself, so a frame is `4 + chunkSize` bytes. */
module Frame {
  import opened Bytes
  import opened Outcomes

  const MaxLen: int := 0x1_0000
  const HeaderLen: int := 14
  const PaddingSize: int := 8
  /** Bytes counted by chunkSize besides the payload: the header minus its own size field. */
  const Overhead: int := HeaderLen - 4
  /** The largest payload whose frame the decoder accepts. */
  const MaxPayload: int := MaxLen - Overhead
  /** The `dataType` values the protocol names: a protobuf message, or a C struct. */
  const ProtobufType: uint16 := 1
  const ClangType: uint16 := 2

  /** A message, either being filled from the wire (`remains` bytes still
      expected at `offset`) or built from a payload. */
  datatype Message = Message(
    chunkSize: uint32,
    mainCmdId: uint16,
    subCmdId: uint16,
    dataSize: uint32,
    dataType: uint16,
    data: seq<byte>,
    remains: int,
    offset: int)

  /** The bookkeeping `WriteBytes` relies on to stay inside `data`. */
  predicate Fillable(m: Message) {
    0 <= m.offset && 0 <= m.remains && m.offset + m.remains <= |m.data|
  }

  /** The padding rule without overflow: dataSize + 10 rounded up to a multiple of 8. */
  function AlignedChunkSize(dataSize: nat): (r: nat)
    ensures r % PaddingSize == 0
    ensures dataSize + Overhead <= r < dataSize + Overhead + PaddingSize
  {
    var size := dataSize + Overhead;
    var m := size % PaddingSize;
    if m > 0 then size - m + PaddingSize else size
  }

  /** `calcChunkSize` as written: the same rule in uint32 arithmetic, which
      wraps for a dataSize within 17 of 2^32. */
  function CalcChunkSize(dataSize: uint32): (r: uint32)
    ensures r == AlignedChunkSize(dataSize) % Modulus32
    ensures dataSize + 18 <= Modulus32 ==> r == AlignedChunkSize(dataSize)
    ensures dataSize + 18 > Modulus32 ==> r == 0 || r == 8 || r == 16
  {
    var size := Add32(dataSize, Overhead);
    var m := size % PaddingSize;
    assert m == (dataSize + Overhead) % PaddingSize by {
      WrapKeepsPadding(dataSize + Overhead);
    }
    if m > 0 then Add32(size - m, PaddingSize) else size
  }

  /** 2^32 is a multiple of 8, so wrapping does not move a value's padding. */
  lemma WrapKeepsPadding(x: nat)
    ensures (x % Modulus32) % PaddingSize == x % PaddingSize
  {
    var q := x / Modulus32;
    assert x == q * Modulus32 + x % Modulus32;
    assert q * Modulus32 == (q * (Modulus32 / PaddingSize)) * PaddingSize;
  }

  /** The message a header announces before any payload arrives: a zeroed
      buffer of `remains` bytes to be filled from offset 0. */
  function Announced(buf: seq<byte>, remains: nat): Message
    requires |buf| >= HeaderLen
  {
    Message(ReadLE32(buf, 0), ReadLE16(buf, 4), ReadLE16(buf, 6),
            ReadLE32(buf, 8), ReadLE16(buf, 12), Zeros(remains), remains, 0)
  }

  /** `NewCommandMessageFromHeaderBuf` as written: the consistency check uses
      the wrapping `CalcChunkSize`, and the buffer size `chunkSize - 10` is
      also computed in uint32. */
  function FromHeaderBufAsWritten(buf: seq<byte>): (r: Result<Message>)
    ensures |buf| < HeaderLen ==> r == Err(HeaderIncomplete)
    ensures |buf| >= HeaderLen && ReadLE32(buf, 0) > MaxLen ==> r == Err(FrameTooLarge)
    ensures (|buf| >= HeaderLen && ReadLE32(buf, 0) <= MaxLen
             && CalcChunkSize(ReadLE32(buf, 8)) != ReadLE32(buf, 0)) ==> r == Err(ChunkSizeMismatch)
    ensures r.Ok? ==> |buf| >= HeaderLen && var m := r.value;
      && m.chunkSize == ReadLE32(buf, 0) && m.mainCmdId == ReadLE16(buf, 4)
      && m.subCmdId == ReadLE16(buf, 6) && m.dataSize == ReadLE32(buf, 8)
      && m.dataType == ReadLE16(buf, 12)
      && |m.data| == m.remains == (m.chunkSize - Overhead) % Modulus32 && m.offset == 0
    ensures r.Ok? ==> r.value.dataSize > |r.value.data| ==> DataBytes(r.value) == Err(SliceBounds)
  {
    if |buf| < HeaderLen then Err(HeaderIncomplete)
    else if ReadLE32(buf, 0) > MaxLen then Err(FrameTooLarge)
    else if CalcChunkSize(ReadLE32(buf, 8)) != ReadLE32(buf, 0) then Err(ChunkSizeMismatch)
    else Ok(Announced(buf, Sub32(ReadLE32(buf, 0), Overhead)))
  }

  /** The header decoder the rest of the model uses: `NewCommandMessageFromHeaderBuf`
      with the size check done without overflow, so an accepted header always
      announces a buffer that holds its valid bytes. */
  function FromHeaderBuf(buf: seq<byte>): (r: Result<Message>)
    ensures |buf| < HeaderLen ==> r == Err(HeaderIncomplete)
    ensures |buf| >= HeaderLen && ReadLE32(buf, 0) > MaxLen ==> r == Err(FrameTooLarge)
    ensures (|buf| >= HeaderLen && ReadLE32(buf, 0) <= MaxLen
             && AlignedChunkSize(ReadLE32(buf, 8)) != ReadLE32(buf, 0)) ==> r == Err(ChunkSizeMismatch)
    ensures r.Ok? ==> |buf| >= HeaderLen
    ensures r.Ok? ==> var m := r.value;
      && m.chunkSize == ReadLE32(buf, 0) && m.mainCmdId == ReadLE16(buf, 4)
      && m.subCmdId == ReadLE16(buf, 6) && m.dataSize == ReadLE32(buf, 8)
      && m.dataType == ReadLE16(buf, 12)
      && m.chunkSize == AlignedChunkSize(m.dataSize) <= MaxLen
      && |m.data| == m.remains == m.chunkSize - Overhead && m.offset == 0
      && (forall i :: 0 <= i < |m.data| ==> m.data[i] == 0)
      && m.dataSize <= |m.data| < m.dataSize + PaddingSize
  {
    if |buf| < HeaderLen then Err(HeaderIncomplete)
    else if ReadLE32(buf, 0) > MaxLen then Err(FrameTooLarge)
    else if AlignedChunkSize(ReadLE32(buf, 8)) != ReadLE32(buf, 0) then Err(ChunkSizeMismatch)
    else Ok(Announced(buf, ReadLE32(buf, 0) - Overhead))
  }

  /** `WriteBytes`: an overrun is refused without any change; otherwise the
      bytes land at `offset` and the offset/remains pair moves by their length. */
  function WriteBytes(m: Message, b: seq<byte>): (r: Result<Message>)
    requires Fillable(m)
    ensures |b| > m.remains <==> r == Err(BufferOverrun)
    ensures r.Ok? ==> var w := r.value;
      && Fillable(w)
      && w.offset == m.offset + |b| && w.remains == m.remains - |b|
      && |w.data| == |m.data|
      && w.data[..m.offset] == m.data[..m.offset]
      && w.data[m.offset..w.offset] == b
      && w.data[w.offset..] == m.data[w.offset..]
      && w == m.(data := w.data, offset := w.offset, remains := w.remains)
  {
    if |b| > m.remains then Err(BufferOverrun)
    else
      CopyContents(m.data, m.offset, b);
      Ok(m.(data := Copy(m.data, m.offset, b), offset := m.offset + |b|, remains := m.remains - |b|))
  }

  /** Two writes that fit are one write of both. */
  lemma WriteTwice(m: Message, x: seq<byte>, y: seq<byte>)
    requires Fillable(m) && |x| + |y| <= m.remains
    ensures WriteBytes(m, x).Ok? && WriteBytes(WriteBytes(m, x).value, y) == WriteBytes(m, x + y)
  {
    CopyTwice(m.data, m.offset, x, y);
  }

  /** `DataBytes`: the valid prefix `data[:dataSize]`; slicing past the end
      is a Go panic, returned here as `SliceBounds`. */
  function DataBytes(m: Message): (r: Result<seq<byte>>)
    ensures r.Ok? <==> m.dataSize <= |m.data|
    ensures r.Ok? ==> |r.value| == m.dataSize && r.value == m.data[..m.dataSize]
  {
    if m.dataSize <= |m.data| then Ok(m.data[..m.dataSize]) else Err(SliceBounds)
  }

  /** `GenBytes`: the little-endian header followed by the whole padded buffer. */
  function GenBytes(m: Message): (r: seq<byte>)
    ensures |r| == HeaderLen + |m.data|
    ensures ReadLE32(r, 0) == m.chunkSize && ReadLE16(r, 4) == m.mainCmdId
    ensures ReadLE16(r, 6) == m.subCmdId && ReadLE32(r, 8) == m.dataSize
    ensures ReadLE16(r, 12) == m.dataType
    ensures r[HeaderLen..] == m.data
  {
    var h := Header(m.chunkSize, m.mainCmdId, m.subCmdId, m.dataSize, m.dataType);
    var r := h + m.data;
    HeaderReadsBack(m.chunkSize, m.mainCmdId, m.subCmdId, m.dataSize, m.dataType);
    assert ReadLE32(r, 0) == ReadLE32(h, 0) && ReadLE32(r, 8) == ReadLE32(h, 8);
    assert ReadLE16(r, 4) == ReadLE16(h, 4) && ReadLE16(r, 6) == ReadLE16(h, 6);
    assert ReadLE16(r, 12) == ReadLE16(h, 12);
    r
  }

  /** `NewCommandMessageFromData`: dataSize is `uint32(len(payload))` and the
      payload is copied into a zeroed buffer of `chunkSize - 10` bytes. */
  function FromData(mainCmdId: uint16, subCmdId: uint16, dataType: uint16, payload: seq<byte>): (r: Message)
    ensures r.mainCmdId == mainCmdId && r.subCmdId == subCmdId && r.dataType == dataType
    ensures r.remains == 0 && r.offset == 0 && Fillable(r)
    ensures |payload| + 18 <= Modulus32 ==>
      && r.dataSize == |payload|
      && r.chunkSize == AlignedChunkSize(|payload|)
      && |r.data| == r.chunkSize - Overhead
      && r.data == payload + Zeros(|r.data| - |payload|)
  {
    var dataSize := |payload| % Modulus32;
    var chunkSize := CalcChunkSize(dataSize);
    var padded := Sub32(chunkSize, Overhead);
    var data := Copy(Zeros(padded), 0, payload);
    assert |payload| + 18 <= Modulus32 ==> data == payload + Zeros(padded - |payload|) by {
      if |payload| + 18 <= Modulus32 {
        assert padded == AlignedChunkSize(|payload|) - Overhead >= |payload|;
        PaddedCopy(payload, padded);
      }
    }
    Message(chunkSize, mainCmdId, subCmdId, dataSize, dataType, data, 0, 0)
  }

  /** Copying a payload into a zeroed buffer at least as long pads it with zeros. */
  lemma PaddedCopy(payload: seq<byte>, padded: nat)
    requires |payload| <= padded
    ensures Copy(Zeros(padded), 0, payload) == payload + Zeros(padded - |payload|)
  {
    var zs := Zeros(padded);
    CopyPrefix(zs, payload);
    assert zs[|payload|..] == Zeros(padded - |payload|);
  }

  /** A message whose header the decoder accepts: chunkSize follows the
      padding rule, fits the limit, and sizes the buffer. */
  predicate WellFormed(m: Message) {
    && m.chunkSize == AlignedChunkSize(m.dataSize) <= MaxLen
    && |m.data| == m.chunkSize - Overhead
  }

  /** A message being filled, with the shape an accepted header gives it. */
  predicate Receiving(m: Message) {
    && Fillable(m) && m.offset + m.remains == |m.data|
    && WellFormed(m)
  }

  /** An accepted header announces a message ready to be filled, with room
      for at least one payload byte. */
  lemma AcceptedReceiving(buf: seq<byte>)
    requires FromHeaderBuf(buf).Ok?
    ensures Receiving(FromHeaderBuf(buf).value) && FromHeaderBuf(buf).value.remains > 0
  {
    var m := FromHeaderBuf(buf).value;
    assert m.chunkSize % PaddingSize == 0 && m.chunkSize >= Overhead;
  }

  /** Every payload of at most 65526 bytes gives a well-formed message, and
      no longer payload does. */
  lemma FromDataWellFormed(mainCmdId: uint16, subCmdId: uint16, dataType: uint16, payload: seq<byte>)
    requires |payload| + 18 <= Modulus32
    ensures WellFormed(FromData(mainCmdId, subCmdId, dataType, payload)) <==> |payload| <= MaxPayload
  {
  }

  /** Encoding a payload of at most 65526 bytes and decoding it again: the
      header of `GenBytes` is accepted, the remaining bytes fill the message
      exactly, and ids, type and valid bytes come back unchanged. */
  lemma RoundTrip(mainCmdId: uint16, subCmdId: uint16, dataType: uint16, payload: seq<byte>)
    requires |payload| <= MaxPayload
    ensures var bytes := GenBytes(FromData(mainCmdId, subCmdId, dataType, payload));
      && |bytes| == 4 + AlignedChunkSize(|payload|)
      && FromHeaderBuf(bytes[..HeaderLen]).Ok?
      && var h := FromHeaderBuf(bytes[..HeaderLen]).value;
      && WriteBytes(h, bytes[HeaderLen..]).Ok?
      && var f := WriteBytes(h, bytes[HeaderLen..]).value;
      && f.remains == 0
      && f.mainCmdId == mainCmdId && f.subCmdId == subCmdId && f.dataType == dataType
      && DataBytes(f) == Ok(payload)
  {
    var m := FromData(mainCmdId, subCmdId, dataType, payload);
    var bytes := GenBytes(m);
    FromDataWellFormed(mainCmdId, subCmdId, dataType, payload);
    assert WellFormed(m) && m.dataSize == |payload|;
    GenBytesSplit(m);
    HeaderDecodes(m.chunkSize, mainCmdId, subCmdId, m.dataSize, dataType);
    var h := FromHeaderBuf(bytes[..HeaderLen]).value;
    assert h.data == Zeros(|m.data|) && h.remains == |m.data|;
    var f := WriteBytes(h, m.data).value;
    assert f.data == m.data;
    assert m.data[..|payload|] == payload;
  }

  /** The header of an encoded payload is accepted exactly when the payload
      has at most 65526 bytes. */
  lemma EncodedHeaderAccepted(mainCmdId: uint16, subCmdId: uint16, dataType: uint16, payload: seq<byte>)
    requires |payload| + 18 <= Modulus32
    ensures FromHeaderBuf(GenBytes(FromData(mainCmdId, subCmdId, dataType, payload))[..HeaderLen]).Ok?
            <==> |payload| <= MaxPayload
  {
    var m := FromData(mainCmdId, subCmdId, dataType, payload);
    GenBytesSplit(m);
    HeaderDecodes(m.chunkSize, mainCmdId, subCmdId, m.dataSize, dataType);
  }

  /** The smallest frame: an empty payload still gets chunkSize 16 and a
      6-byte zero buffer; a header claiming chunkSize 10 is refused. */
  lemma EmptyPayloadFrame(mainCmdId: uint16, subCmdId: uint16, dataType: uint16)
    ensures var m := FromData(mainCmdId, subCmdId, dataType, []);
      m.chunkSize == 16 && m.data == [0, 0, 0, 0, 0, 0] && |GenBytes(m)| == 20
    ensures FromHeaderBuf(Header(10, mainCmdId, subCmdId, 0, dataType)) == Err(ChunkSizeMismatch)
  {
    HeaderDecodes(10, mainCmdId, subCmdId, 0, dataType);
  }

  /** The 14 header bytes for the given field values. */
  function Header(chunkSize: uint32, mainCmdId: uint16, subCmdId: uint16, dataSize: uint32, dataType: uint16): (r: seq<byte>)
    ensures |r| == HeaderLen
  {
    LE32(chunkSize) + LE16(mainCmdId) + LE16(subCmdId) + LE32(dataSize) + LE16(dataType)
  }

  lemma HeaderReadsBack(chunkSize: uint32, mainCmdId: uint16, subCmdId: uint16, dataSize: uint32, dataType: uint16)
    ensures var h := Header(chunkSize, mainCmdId, subCmdId, dataSize, dataType);
      && ReadLE32(h, 0) == chunkSize && ReadLE16(h, 4) == mainCmdId && ReadLE16(h, 6) == subCmdId
      && ReadLE32(h, 8) == dataSize && ReadLE16(h, 12) == dataType
  {
    var h := Header(chunkSize, mainCmdId, subCmdId, dataSize, dataType);
    assert h[0..4] == LE32(chunkSize);
    assert h[4..6] == LE16(mainCmdId);
    assert h[6..8] == LE16(subCmdId);
    assert h[8..12] == LE32(dataSize);
    assert h[12..14] == LE16(dataType);
    LE32RoundTrip(chunkSize, h, 0);
    LE16RoundTrip(mainCmdId, h, 4);
    LE16RoundTrip(subCmdId, h, 6);
    LE32RoundTrip(dataSize, h, 8);
    LE16RoundTrip(dataType, h, 12);
  }

  /** What the decoder makes of the header bytes of given field values. */
  lemma HeaderDecodes(chunkSize: uint32, mainCmdId: uint16, subCmdId: uint16, dataSize: uint32, dataType: uint16)
    ensures FromHeaderBuf(Header(chunkSize, mainCmdId, subCmdId, dataSize, dataType)) ==
      if chunkSize > MaxLen then Err(FrameTooLarge)
      else if AlignedChunkSize(dataSize) != chunkSize then Err(ChunkSizeMismatch)
      else Ok(Message(chunkSize, mainCmdId, subCmdId, dataSize, dataType,
                      Zeros(chunkSize - Overhead), chunkSize - Overhead, 0))
  {
    HeaderReadsBack(chunkSize, mainCmdId, subCmdId, dataSize, dataType);
  }

  /** The same for the decoder as written. */
  lemma HeaderDecodesAsWritten(chunkSize: uint32, mainCmdId: uint16, subCmdId: uint16, dataSize: uint32, dataType: uint16)
    ensures FromHeaderBufAsWritten(Header(chunkSize, mainCmdId, subCmdId, dataSize, dataType)) ==
      if chunkSize > MaxLen then Err(FrameTooLarge)
      else if CalcChunkSize(dataSize) != chunkSize then Err(ChunkSizeMismatch)
      else Ok(Message(chunkSize, mainCmdId, subCmdId, dataSize, dataType,
                      Zeros(Sub32(chunkSize, Overhead)), Sub32(chunkSize, Overhead), 0))
  {
    HeaderReadsBack(chunkSize, mainCmdId, subCmdId, dataSize, dataType);
  }

  /** `GenBytes` is the header of the message's fields followed by its buffer. */
  lemma GenBytesSplit(m: Message)
    ensures GenBytes(m)[..HeaderLen] == Header(m.chunkSize, m.mainCmdId, m.subCmdId, m.dataSize, m.dataType)
    ensures GenBytes(m)[HeaderLen..] == m.data
  {
  }

  /** The decoder as written accepts a header whose dataSize lies beyond its
      buffer: dataSize 0xFFFFFFFF wraps `calcChunkSize` to 16, so a 6-byte
      buffer is allocated and `DataBytes` slices past it. */
  lemma WrappedHeaderAccepted()
    ensures var r := FromHeaderBufAsWritten(Header(16, 0, 0, 0xFFFF_FFFF, 0));
      && r.Ok? && |r.value.data| == 6 && r.value.dataSize == 0xFFFF_FFFF
      && DataBytes(r.value) == Err(SliceBounds)
  {
    assert CalcChunkSize(0xFFFF_FFFF) == 16;
    HeaderDecodesAsWritten(16, 0, 0, 0xFFFF_FFFF, 0);
  }

  /** With a dataSize from 2^32 - 17 to 2^32 - 10 (0xFFFFFFF6 is one),
      `calcChunkSize` wraps to 0, a header announcing chunkSize 0 passes both
      checks, and `chunkSize - 10` wraps to a buffer of 2^32 - 10 bytes. */
  lemma WrappedBufferSize(dataSize: uint32)
    requires Modulus32 - 17 <= dataSize <= Modulus32 - Overhead
    ensures var r := FromHeaderBufAsWritten(Header(0, 0, 0, dataSize, 0));
      r.Ok? && r.value.chunkSize == 0 && r.value.remains == Modulus32 - Overhead
  {
    assert AlignedChunkSize(dataSize) == Modulus32;
    HeaderDecodesAsWritten(0, 0, 0, dataSize, 0);
  }

  /** The corrected decoder refuses both wrapped headers. */
  lemma WrappedHeaderRefused()
    ensures FromHeaderBuf(Header(16, 0, 0, 0xFFFF_FFFF, 0)) == Err(ChunkSizeMismatch)
  {
    assert AlignedChunkSize(0xFFFF_FFFF) != 16;
    HeaderDecodes(16, 0, 0, 0xFFFF_FFFF, 0);
  }

  /** The two decoders differ exactly on headers whose dataSize makes
      `calcChunkSize` wrap to the announced chunkSize; everywhere else the
      correction changes nothing. */
  lemma DecodersDifferOnlyOnWrap(buf: seq<byte>)
    ensures FromHeaderBufAsWritten(buf) != FromHeaderBuf(buf) <==>
      && |buf| >= HeaderLen
      && ReadLE32(buf, 8) + 18 > Modulus32
      && CalcChunkSize(ReadLE32(buf, 8)) == ReadLE32(buf, 0)
  {
  }
}
