/** `RawMessageImpl`: the frame codec again, under another name. Its fields,
    constants and functions are those of `CommandMessage` one for one, so
    each operation here is the `Frame` operation, stated with the promises
    this copy makes. The decoder is the one as written, wrap-around included. */
module RawMessage {
  import opened Bytes
  import opened Outcomes
  import Frame

  type RawMessage = Frame.Message

  /** `calcChunkSize`: dataSize + 10 rounded up to a multiple of 8, in uint32. */
  function CalcChunkSize(dataSize: uint32): (r: uint32)
    ensures dataSize + 18 <= Modulus32 ==> r % 8 == 0 && dataSize + 10 <= r < dataSize + 18
    ensures dataSize + 18 > Modulus32 ==> r < 24
  {
    Frame.CalcChunkSize(dataSize)
  }

  /** `NewRawMessageFromHeaderBuf`. Away from the uint32 wrap it is the
      corrected decoder the rest of the model uses. */
  function FromHeaderBuf(buf: seq<byte>): (r: Result<RawMessage>)
    ensures r.Err? <==> |buf| < 14 || ReadLE32(buf, 0) > 0x1_0000 || CalcChunkSize(ReadLE32(buf, 8)) != ReadLE32(buf, 0)
    ensures |buf| < 14 ==> r == Err(HeaderIncomplete)
    ensures |buf| >= 14 && ReadLE32(buf, 0) > 0x1_0000 ==> r == Err(FrameTooLarge)
    ensures r.Ok? ==> var m := r.value;
      && m.chunkSize == ReadLE32(buf, 0) && m.mainCmdId == ReadLE16(buf, 4)
      && m.subCmdId == ReadLE16(buf, 6) && m.dataSize == ReadLE32(buf, 8)
      && m.dataType == ReadLE16(buf, 12)
      && |m.data| == m.remains == Sub32(m.chunkSize, 10) && m.offset == 0
    ensures |buf| >= 14 && ReadLE32(buf, 8) + 18 <= Modulus32 ==> r == Frame.FromHeaderBuf(buf)
  {
    Frame.DecodersDifferOnlyOnWrap(buf);
    Frame.FromHeaderBufAsWritten(buf)
  }

  /** `NewRawMessageFromData`: the payload, zero-padded to chunkSize - 10 bytes. */
  function FromData(mainCmdId: uint16, subCmdId: uint16, dataType: uint16, payload: seq<byte>): (r: RawMessage)
    ensures r.mainCmdId == mainCmdId && r.subCmdId == subCmdId && r.dataType == dataType
    ensures |payload| + 18 <= Modulus32 ==>
      && r.dataSize == |payload| && |r.data| == r.chunkSize - 10 >= |payload|
      && r.data[..|payload|] == payload
      && (forall i :: |payload| <= i < |r.data| ==> r.data[i] == 0)
  {
    var r := Frame.FromData(mainCmdId, subCmdId, dataType, payload);
    assert |payload| + 18 <= Modulus32 ==> r.data[..|payload|] == payload && r.data[|payload|..] == Zeros(|r.data| - |payload|);
    r
  }

  /** `WriteBytes`: an overrun changes nothing; a write that fits lands at
      `offset`, leaves the other bytes alone and keeps offset + remains. */
  function WriteBytes(m: RawMessage, b: seq<byte>): (r: Result<RawMessage>)
    requires Frame.Fillable(m)
    ensures r.Err? <==> |b| > m.remains
    ensures r.Err? ==> r.error == BufferOverrun
    ensures r.Ok? ==> var w := r.value;
      && w.offset + w.remains == m.offset + m.remains && w.offset == m.offset + |b|
      && |w.data| == |m.data| && w.data[m.offset..w.offset] == b
      && (forall i :: 0 <= i < |w.data| && !(m.offset <= i < w.offset) ==> w.data[i] == m.data[i])
  {
    var r := Frame.WriteBytes(m, b);
    if r.Ok? then
      var w := r.value;
      assert forall i :: 0 <= i < m.offset ==> w.data[..m.offset][i] == w.data[i];
      assert forall i :: w.offset <= i < |w.data| ==> w.data[w.offset..][i - w.offset] == w.data[i];
      r
    else r
  }

  /** `DataBytes`: the first dataSize bytes of the buffer, a slice panic past it. */
  function DataBytes(m: RawMessage): (r: Result<seq<byte>>)
    ensures r.Ok? <==> m.dataSize <= |m.data|
    ensures r.Ok? ==> r.value == m.data[..m.dataSize]
    ensures r.Err? ==> r.error == SliceBounds
  {
    Frame.DataBytes(m)
  }

  /** `GenBytes`: the 14-byte header, then the padded buffer; a message
      whose header is accepted takes 4 + chunkSize bytes. */
  function GenBytes(m: RawMessage): (r: seq<byte>)
    ensures Frame.WellFormed(m) ==> |r| == 4 + m.chunkSize
    ensures |r| >= 14 && r[..14] == Frame.Header(m.chunkSize, m.mainCmdId, m.subCmdId, m.dataSize, m.dataType)
    ensures r[14..] == m.data
  {
    Frame.GenBytesSplit(m);
    Frame.GenBytes(m)
  }

  /** Encoding and decoding with this copy's functions: the header is
      accepted, the rest of the bytes fill the message exactly, and ids,
      type and valid bytes come back. */
  lemma RoundTrip(mainCmdId: uint16, subCmdId: uint16, dataType: uint16, payload: seq<byte>)
    requires |payload| <= 0x1_0000 - 10
    ensures var bytes := GenBytes(FromData(mainCmdId, subCmdId, dataType, payload));
      && FromHeaderBuf(bytes[..14]).Ok?
      && var h := FromHeaderBuf(bytes[..14]).value;
      && WriteBytes(h, bytes[14..]).Ok?
      && var f := WriteBytes(h, bytes[14..]).value;
      && f.remains == 0
      && f.mainCmdId == mainCmdId && f.subCmdId == subCmdId && f.dataType == dataType
      && DataBytes(f) == Ok(payload)
  {
    var m := Frame.FromData(mainCmdId, subCmdId, dataType, payload);
    var bytes := Frame.GenBytes(m);
    Frame.RoundTrip(mainCmdId, subCmdId, dataType, payload);
    assert ReadLE32(bytes[..14], 8) == |payload| by {
      Frame.GenBytesSplit(m);
      Frame.HeaderReadsBack(m.chunkSize, mainCmdId, subCmdId, m.dataSize, dataType);
    }
    Frame.AcceptedReceiving(bytes[..14]);
  }
}
