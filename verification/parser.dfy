/** `RawMessageParser`: the older pull-style frame reader. Each call takes
    header bytes and, once the header is complete, as much payload as the
    same call holds, and reports how many bytes it consumed; the caller
    collects a full message with `FetchMessage`. */
module Parser {
  import opened Bytes
  import opened Outcomes
  import Frame
  import InputFilter

  datatype Parser = Parser(
    headerBuf: seq<byte>,
    headerOffset: int,
    newMsg: bool,
    msg: Option<Frame.Message>)

  /** The result of one call: the new state, the consumed-byte count, and
      the error, if any. */
  datatype Written = Written(p: Parser, writeLen: nat, err: Option<Error>)

  /** Which header decoder a call uses: `NewRawMessageFromHeaderBuf` as
      written, with its uint32 wrap, or the corrected one. */
  datatype HeaderDecoder = Wrapping | Checked

  /** Either decoder refuses only an oversized or mismatched header of 14
      bytes and starts an empty message; only the corrected one guarantees
      the message can receive its whole payload. */
  function DecodeHeader(d: HeaderDecoder, buf: seq<byte>): (r: Result<Frame.Message>)
    requires |buf| == Frame.HeaderLen
    ensures r.Err? ==> r.error in {FrameTooLarge, ChunkSizeMismatch}
    ensures r.Ok? ==> Frame.Fillable(r.value) && r.value.offset + r.value.remains == |r.value.data|
    ensures d == Checked && r.Ok? ==> Frame.Receiving(r.value)
  {
    if d == Wrapping then Frame.FromHeaderBufAsWritten(buf)
    else
      var r := Frame.FromHeaderBuf(buf);
      if r.Ok? then
        Frame.AcceptedReceiving(buf);
        r
      else r
  }

  /** The header buffer has its 14 bytes and the offset stays inside it; a
      message is being filled from offset 0 of its buffer, with the header
      consumed completely. The parser as written keeps this much. */
  predicate Shaped(p: Parser) {
    && |p.headerBuf| == Frame.HeaderLen
    && 0 <= p.headerOffset < Frame.HeaderLen
    && (p.msg.Some? ==> var m := p.msg.value;
        Frame.Fillable(m) && m.offset + m.remains == |m.data| && p.headerOffset == 0)
  }

  /** As `Shaped`, and the message comes from a header the corrected
      decoder accepts. */
  predicate Valid(p: Parser) {
    && Shaped(p)
    && (p.msg.Some? ==> Frame.Receiving(p.msg.value))
  }

  function NewParser(): (p: Parser)
    ensures Valid(p) && p.newMsg && p.msg.None? && p.headerOffset == 0
  {
    Parser(Zeros(Frame.HeaderLen), 0, true, None)
  }

  /** Lines 80-87: append `min(remains, avail)` payload bytes to the message
      and add them to the count. */
  function Append(p: Parser, rest: seq<byte>, writeLen: nat): (r: Written)
    requires Shaped(p) && p.msg.Some?
    ensures Shaped(r.p) && (Valid(p) ==> Valid(r.p)) && r.err.None? && r.p.newMsg == p.newMsg
    ensures r.writeLen == writeLen + Min(p.msg.value.remains, |rest|)
    ensures r.p.msg.Some? && r.p.msg.value.remains == p.msg.value.remains - Min(p.msg.value.remains, |rest|)
  {
    var m := p.msg.value;
    var k := Min(m.remains, |rest|);
    Written(p.(msg := Some(Frame.WriteBytes(m, rest[..k]).value)), writeLen + k, None)
  }

  /** Lines 49-76 (then the append): fill the header; when it is complete,
      reset the offset, set `newMsg` to `newMsgAfter` and decode with `d`. */
  function HeaderStep(p: Parser, b: seq<byte>, newMsgAfter: bool, d: HeaderDecoder): (r: Written)
    requires Shaped(p)
    ensures Shaped(r.p) && (d == Checked ==> Valid(r.p)) && r.writeLen <= |b|
    ensures |b| > 0 ==> r.writeLen > 0
    ensures r.err.Some? ==> r.err.value in {FrameTooLarge, ChunkSizeMismatch} && r.p.msg.None?
    ensures r.p.newMsg == p.newMsg || r.p.newMsg == newMsgAfter
    ensures p.headerOffset + |b| < Frame.HeaderLen ==>
      r == Written(p.(headerBuf := Copy(p.headerBuf, p.headerOffset, b),
                      headerOffset := p.headerOffset + |b|, msg := None), |b|, None)
  {
    var n := Min(|b|, Frame.HeaderLen - p.headerOffset);
    var buf := Copy(p.headerBuf, p.headerOffset, b[..n]);
    assert n == |b| ==> b[..n] == b;
    if p.headerOffset + n < Frame.HeaderLen then
      Written(p.(headerBuf := buf, headerOffset := p.headerOffset + n, msg := None), n, None)
    else
      var q := p.(headerBuf := buf, headerOffset := 0, newMsg := newMsgAfter, msg := None);
      match DecodeHeader(d, buf)
      case Err(e) => Written(q, n, Some(e))
      case Ok(m) => Append(q.(msg := Some(m)), b[n..], n)
  }

  /** `WriteBytes` as written: `newMsg` starts true and line 72 sets it to
      true again, so every call begins a header, even while a message still
      waits for payload. The header is decoded by the wrapping
      `NewRawMessageFromHeaderBuf`. With the flag false and no message, the
      nil message would be dereferenced. */
  function WriteBytesAsWritten(p: Parser, b: seq<byte>): (r: Written)
    requires Shaped(p)
    ensures Shaped(r.p) && r.writeLen <= |b|
    ensures p.newMsg ==> r.p.newMsg
    ensures p.newMsg && |b| > 0 ==> r.writeLen > 0
    ensures r.err.Some? ==> r.err.value in {FrameTooLarge, ChunkSizeMismatch, NilPointer}
  {
    if p.newMsg then HeaderStep(p, b, true, Wrapping)
    else if p.msg.None? then Written(p, 0, Some(NilPointer))
    else Append(p, b, 0)
  }

  /** The corrected `WriteBytes` the rest of the model uses: line 72 clears
      the flag, and a header is started only when no message is being
      filled (none yet, or the previous one is full). */
  function WriteBytes(p: Parser, b: seq<byte>): (r: Written)
    requires Valid(p)
    ensures Valid(r.p) && r.writeLen <= |b|
    ensures |b| > 0 ==> r.writeLen > 0
    ensures r.err.Some? ==> r.err.value in {FrameTooLarge, ChunkSizeMismatch}
  {
    if p.newMsg || p.msg.None? || p.msg.value.remains == 0 then HeaderStep(p, b, false, Checked)
    else Append(p, b, 0)
  }

  /** `FetchMessage`: hands out a full message and forgets it; otherwise
      nothing changes. */
  function FetchMessage(p: Parser): (r: (Parser, Option<Frame.Message>))
    requires Shaped(p)
    ensures Shaped(r.0) && (Valid(p) ==> Valid(r.0))
    ensures r.1.Some? <==> p.msg.Some? && p.msg.value.remains == 0
    ensures r.1.Some? ==> r.1 == p.msg && r.0 == p.(msg := None)
    ensures r.1.None? ==> r.0 == p
  {
    if p.msg.Some? && p.msg.value.remains == 0 then (p.(msg := None), p.msg) else (p, None)
  }

  /** The messages fetched and the errors reported while a caller feeds all
      of `b`, fetching after every call, as the connection's read loop does. */
  datatype Driven = Driven(p: Parser, fetched: seq<Frame.Message>, errors: seq<Error>)

  function AsSeq<T>(o: Option<T>): seq<T> {
    if o.Some? then [o.value] else []
  }

  /** Feeds `b` to the corrected parser until every byte is consumed,
      fetching after each call; errors are collected and do not stop it. */
  function Drive(p: Parser, b: seq<byte>): (r: Driven)
    requires Valid(p)
    ensures Valid(r.p)
    decreases |b|
  {
    if |b| == 0 then Driven(p, [], [])
    else
      var w := WriteBytes(p, b);
      var (q, got) := FetchMessage(w.p);
      var rest := Drive(q, b[w.writeLen..]);
      Driven(rest.p, AsSeq(got) + rest.fetched, AsSeq(w.err) + rest.errors)
  }

  /** The states the corrected parser is in between calls of `Drive`:
      `newMsg` only before any message, and no full message left unfetched. */
  predicate Settled(p: Parser) {
    && Valid(p)
    && (p.newMsg ==> p.msg.None?)
    && (p.msg.Some? ==> p.msg.value.remains > 0)
  }

  /** The frame extractor in the same state, sending to channel `c`. */
  function Abs(p: Parser, c: InputFilter.Channel): (f: InputFilter.Filter)
    requires Settled(p)
    ensures InputFilter.Valid(f)
  {
    InputFilter.Filter(p.headerBuf, p.headerOffset, Some(c), p.msg)
  }

  /** One call of the corrected parser plus a fetch does on the bytes it
      consumed exactly what the frame extractor does on them. */
  predicate Agrees(p: Parser, b: seq<byte>, c: InputFilter.Channel)
    requires Settled(p)
  {
    var w := WriteBytes(p, b);
    var (q, got) := FetchMessage(w.p);
    && Settled(q)
    && InputFilter.WriteBytes(Abs(p, c), b[..w.writeLen]) == InputFilter.Step(Abs(q, c), AsSeq(got), w.err)
  }

  lemma StepMatches(p: Parser, b: seq<byte>, c: InputFilter.Channel)
    requires Settled(p) && |b| > 0
    ensures Agrees(p, b, c)
  {
    var w := WriteBytes(p, b);
    var f := Abs(p, c);
    if p.msg.None? {
      var n := Min(|b|, Frame.HeaderLen - p.headerOffset);
      var buf := Copy(p.headerBuf, p.headerOffset, b[..n]);
      if p.headerOffset + n < Frame.HeaderLen {
        assert w.writeLen == n;
        assert b[..n][..n] == b[..n];
      } else {
        HeaderMatches(p, b, c);
      }
    } else {
      var k := Min(p.msg.value.remains, |b|);
      assert w == Append(p, b, 0);
      assert b[..k][..k] == b[..k];
      FeedExact(Abs(p, c), b[..k]);
    }
  }

  lemma HeaderMatches(p: Parser, b: seq<byte>, c: InputFilter.Channel)
    requires Settled(p) && p.msg.None? && p.headerOffset + |b| >= Frame.HeaderLen
    ensures Agrees(p, b, c)
  {
    var n := Frame.HeaderLen - p.headerOffset;
    var buf := Copy(p.headerBuf, p.headerOffset, b[..n]);
    if Frame.FromHeaderBuf(buf).Err? {
      HeaderRefusedMatches(p, b, c);
    } else {
      HeaderAcceptedMatches(p, b, c);
    }
  }

  lemma HeaderRefusedMatches(p: Parser, b: seq<byte>, c: InputFilter.Channel)
    requires Settled(p) && p.msg.None? && p.headerOffset + |b| >= Frame.HeaderLen
    requires Frame.FromHeaderBuf(Copy(p.headerBuf, p.headerOffset, b[..Frame.HeaderLen - p.headerOffset])).Err?
    ensures Agrees(p, b, c)
  {
    var n := Frame.HeaderLen - p.headerOffset;
    var buf := Copy(p.headerBuf, p.headerOffset, b[..n]);
    var e := Frame.FromHeaderBuf(buf).error;
    var q := p.(headerBuf := buf, headerOffset := 0, newMsg := false, msg := None);
    var g := InputFilter.Filter(buf, 0, Some(c), None);
    var w := WriteBytes(p, b);
    assert w == HeaderStep(p, b, false, Checked);
    assert w == Written(q, n, Some(e));
    assert FetchMessage(q) == (q, None);
    assert b[..n][..n] == b[..n];
    InputFilter.HeaderDone(Abs(p, c), b[..n], b[..n], b[..n][n..]);
    assert InputFilter.HeaderReady(g, b[..n][n..]) == InputFilter.Step(g, [], Some(e));
  }

  lemma HeaderAcceptedMatches(p: Parser, b: seq<byte>, c: InputFilter.Channel)
    requires Settled(p) && p.msg.None? && p.headerOffset + |b| >= Frame.HeaderLen
    requires Frame.FromHeaderBuf(Copy(p.headerBuf, p.headerOffset, b[..Frame.HeaderLen - p.headerOffset])).Ok?
    ensures Agrees(p, b, c)
  {
    var n := Frame.HeaderLen - p.headerOffset;
    var buf := Copy(p.headerBuf, p.headerOffset, b[..n]);
    var m := Frame.FromHeaderBuf(buf).value;
    Frame.AcceptedReceiving(buf);
    var k := Min(m.remains, |b| - n);
    var filled := Frame.WriteBytes(m, b[n..][..k]).value;
    AcceptedWith(p, b, c, n, buf, m, k, filled);
  }

  /** What the extractor ends in once its message has been given `w`'s
      bytes: still filling, or idle with `w` sent. */
  function Filled(g: InputFilter.Filter, w: Frame.Message): InputFilter.Step {
    if w.remains > 0 then InputFilter.Step(g.(msg := Some(w)), [], None)
    else InputFilter.Step(g, [w], None)
  }

  lemma AcceptedWith(p: Parser, b: seq<byte>, c: InputFilter.Channel, n: nat, buf: seq<byte>,
                     m: Frame.Message, k: nat, filled: Frame.Message)
    requires Settled(p) && p.msg.None? && n == Frame.HeaderLen - p.headerOffset && n <= |b|
    requires buf == Copy(p.headerBuf, p.headerOffset, b[..n]) && Frame.FromHeaderBuf(buf) == Ok(m)
    requires Frame.Receiving(m) && k == Min(m.remains, |b| - n)
    requires filled == Frame.WriteBytes(m, b[n..][..k]).value
    ensures Agrees(p, b, c)
  {
    var q := p.(headerBuf := buf, headerOffset := 0, newMsg := false, msg := Some(filled));
    var y := b[..n + k];
    AcceptedSlices(b, n, k);
    ParserAccepts(p, b, buf, m, k, filled);
    ExtractorFills(Abs(p, c), y, buf, m, filled);
    FetchFilled(q, c);
  }

  lemma AcceptedSlices(b: seq<byte>, n: nat, k: nat)
    requires n + k <= |b|
    ensures b[..n + k][..n] == b[..n] && b[..n + k][n..] == b[n..][..k]
  {
  }

  /** Fetching after a call that ended inside a payload: the filled message
      is handed out exactly when it is full. */
  lemma FetchFilled(q: Parser, c: InputFilter.Channel)
    requires Valid(q) && !q.newMsg && q.msg.Some?
    ensures var (q', got) := FetchMessage(q);
      && Settled(q')
      && InputFilter.Step(Abs(q', c), AsSeq(got), None)
         == Filled(InputFilter.Filter(q.headerBuf, q.headerOffset, Some(c), None), q.msg.value)
  {
  }

  /** The extractor on bytes that complete an accepted header and then fill
      at most the payload it announces. */
  lemma ExtractorFills(f: InputFilter.Filter, y: seq<byte>, buf: seq<byte>, m: Frame.Message, filled: Frame.Message)
    requires InputFilter.Valid(f) && f.msg.None? && f.receiver.Some? && f.headerOffset + |y| >= Frame.HeaderLen
    requires buf == Copy(f.headerBuf, f.headerOffset, y[..Frame.HeaderLen - f.headerOffset])
    requires Frame.FromHeaderBuf(buf) == Ok(m)
    requires |y| - (Frame.HeaderLen - f.headerOffset) <= m.remains
    requires filled == Frame.WriteBytes(m, y[Frame.HeaderLen - f.headerOffset..]).value
    ensures InputFilter.WriteBytes(f, y) == Filled(InputFilter.Filter(buf, 0, f.receiver, None), filled)
  {
    var n := Frame.HeaderLen - f.headerOffset;
    InputFilter.HeaderDone(f, y, y[..n], y[n..]);
    var g := InputFilter.Filter(buf, 0, f.receiver, None);
    InputFilter.HeaderAccepted(g, y[n..], m);
    FeedExact(g.(msg := Some(m)), y[n..]);
  }

  /** The corrected parser on bytes that complete an accepted header. */
  lemma ParserAccepts(p: Parser, b: seq<byte>, buf: seq<byte>, m: Frame.Message, k: nat, filled: Frame.Message)
    requires Settled(p) && p.msg.None? && p.headerOffset + |b| >= Frame.HeaderLen
    requires buf == Copy(p.headerBuf, p.headerOffset, b[..Frame.HeaderLen - p.headerOffset])
    requires Frame.FromHeaderBuf(buf) == Ok(m)
    requires k == Min(m.remains, |b| - (Frame.HeaderLen - p.headerOffset))
    requires filled == Frame.WriteBytes(m, b[Frame.HeaderLen - p.headerOffset..][..k]).value
    ensures WriteBytes(p, b) == Written(p.(headerBuf := buf, headerOffset := 0, newMsg := false,
                                           msg := Some(filled)), Frame.HeaderLen - p.headerOffset + k, None)
  {
    var n := Frame.HeaderLen - p.headerOffset;
    var q := p.(headerBuf := buf, headerOffset := 0, newMsg := false, msg := None);
    assert WriteBytes(p, b) == HeaderStep(p, b, false, Checked);
    assert HeaderStep(p, b, false, Checked) == Append(q.(msg := Some(m)), b[n..], n);
  }

  /** The extractor given no more payload than its message still expects:
      the message is kept, or it is full and sent. */
  lemma FeedExact(f: InputFilter.Filter, x: seq<byte>)
    requires InputFilter.Valid(f) && f.msg.Some? && f.receiver.Some? && |x| <= f.msg.value.remains
    ensures InputFilter.Feed(f, x) == Filled(f.(msg := None), Frame.WriteBytes(f.msg.value, x).value)
  {
    assert x[..|x|] == x;
    assert x[|x|..] == [];
  }

  /** The corrected parser, driven as the read loop drives it, agrees with
      the frame extractor: it reports an error exactly when the extractor
      stops on one, and otherwise fetches the messages the extractor sends
      and ends in the same state. */
  lemma {:induction false} DriveMatchesExtractor(p: Parser, b: seq<byte>, c: InputFilter.Channel)
    requires Settled(p)
    ensures var r := InputFilter.WriteBytes(Abs(p, c), b);
      var d := Drive(p, b);
      && (d.errors == [] <==> r.err.None?)
      && (r.err.None? ==> d.fetched == r.sent && Settled(d.p) && Abs(d.p, c) == r.f)
    decreases |b|
  {
    if |b| > 0 {
      var w := WriteBytes(p, b);
      var (q, got) := FetchMessage(w.p);
      StepMatches(p, b, c);
      assert b == b[..w.writeLen] + b[w.writeLen..];
      InputFilter.SplitLaw(Abs(p, c), b[..w.writeLen], b[w.writeLen..]);
      DriveMatchesExtractor(q, b[w.writeLen..], c);
    }
  }

  /** The read loop: each chunk read from the connection is driven through
      the parser in turn. */
  function DriveAll(p: Parser, chunks: seq<seq<byte>>): (r: Driven)
    requires Valid(p)
    ensures Valid(r.p)
    decreases |chunks|
  {
    if |chunks| == 0 then Driven(p, [], [])
    else
      var d := Drive(p, chunks[0]);
      var rest := DriveAll(d.p, chunks[1..]);
      Driven(rest.p, d.fetched + rest.fetched, d.errors + rest.errors)
  }

  /** However the stream arrives in reads, the corrected parser reports no
      error exactly when the frame extractor, given the whole stream at once,
      stops on none, and then fetches the messages the extractor sends. */
  lemma {:induction false} DriveAllMatchesExtractor(p: Parser, chunks: seq<seq<byte>>, c: InputFilter.Channel)
    requires Settled(p)
    ensures var r := InputFilter.WriteBytes(Abs(p, c), Concat(chunks));
      var d := DriveAll(p, chunks);
      && (d.errors == [] <==> r.err.None?)
      && (r.err.None? ==> d.fetched == r.sent && Settled(d.p) && Abs(d.p, c) == r.f)
    decreases |chunks|
  {
    if |chunks| > 0 {
      var d := Drive(p, chunks[0]);
      DriveMatchesExtractor(p, chunks[0], c);
      InputFilter.SplitLaw(Abs(p, c), chunks[0], Concat(chunks[1..]));
      var r1 := InputFilter.WriteBytes(Abs(p, c), chunks[0]);
      if r1.err.None? {
        DriveAllMatchesExtractor(d.p, chunks[1..], c);
      }
    }
  }

  /** As written, a call after a completed header begins a new header
      again: payload bytes that arrive in a later call are taken as header
      bytes, and the message waiting for them is never fetched. */
  lemma {:induction false} AsWrittenDropsPayload(h: seq<byte>, x: seq<byte>)
    requires |h| == Frame.HeaderLen && Frame.FromHeaderBuf(h).Ok? && 0 < |x| < Frame.HeaderLen
    ensures var w1 := WriteBytesAsWritten(NewParser(), h);
      var (q1, got1) := FetchMessage(w1.p);
      var w2 := WriteBytesAsWritten(q1, x);
      var (q2, got2) := FetchMessage(w2.p);
      && w1.writeLen == |h| && w1.err.None? && got1.None?
      && w2.writeLen == |x| && w2.err.None? && got2.None?
      && q2.msg.None? && q2.headerOffset == |x|
  {
    var p := NewParser();
    assert h[..Frame.HeaderLen] == h;
    CopyWhole(p.headerBuf, h);
    var m := Frame.FromHeaderBuf(h).value;
    Frame.AcceptedReceiving(h);
    var w1 := WriteBytesAsWritten(p, h);
    assert w1 == Append(p.(headerBuf := h, msg := Some(m)), h[Frame.HeaderLen..], Frame.HeaderLen);
    var q1 := FetchMessage(w1.p).0;
    assert q1 == w1.p && q1.newMsg && q1.headerOffset == 0;
    assert x[..|x|] == x;
  }

  /** The parser as written decodes with the wrapping decoder: the header
      with chunkSize 16 and dataSize 0xFFFFFFFF, followed by six bytes, is
      fetched as a complete message whose `DataBytes` panics. The corrected
      parser refuses that header. */
  lemma WrappedHeaderFetched()
    ensures var b := Frame.Header(16, 0, 0, 0xFFFF_FFFF, 0) + Zeros(6);
      var w := WriteBytesAsWritten(NewParser(), b);
      var (q, got) := FetchMessage(w.p);
      && w.err.None? && w.writeLen == |b| == 20 && got.Some?
      && got.value.dataSize == 0xFFFF_FFFF && |got.value.data| == 6
      && Frame.DataBytes(got.value) == Err(SliceBounds)
    ensures WriteBytes(NewParser(), Frame.Header(16, 0, 0, 0xFFFF_FFFF, 0) + Zeros(6)).err == Some(ChunkSizeMismatch)
  {
    var h := Frame.Header(16, 0, 0, 0xFFFF_FFFF, 0);
    var b := h + Zeros(6);
    var p := NewParser();
    assert b[..Frame.HeaderLen] == h && b[Frame.HeaderLen..] == Zeros(6);
    CopyWhole(p.headerBuf, h);
    Frame.WrappedHeaderAccepted();
    Frame.WrappedHeaderRefused();
    var m := Frame.FromHeaderBufAsWritten(h).value;
    var w := WriteBytesAsWritten(p, b);
    assert w == Append(p.(headerBuf := h, msg := Some(m)), Zeros(6), Frame.HeaderLen);
    assert Zeros(6)[..6] == Zeros(6);
  }

  /** The smallest frame, read as its header in one call and its 6-byte
      payload in the next, is lost by the parser as written. */
  lemma SplitFrameLost()
    ensures var bytes := Frame.GenBytes(Frame.FromData(0, 0, 0, []));
      var w1 := WriteBytesAsWritten(NewParser(), bytes[..Frame.HeaderLen]);
      var (q1, got1) := FetchMessage(w1.p);
      var w2 := WriteBytesAsWritten(q1, bytes[Frame.HeaderLen..]);
      var (q2, got2) := FetchMessage(w2.p);
      && |bytes| == 20 && got1.None? && got2.None? && q2.msg.None?
  {
    var bytes := Frame.GenBytes(Frame.FromData(0, 0, 0, []));
    Frame.EmptyPayloadFrame(0, 0, 0);
    Frame.EncodedHeaderAccepted(0, 0, 0, []);
    AsWrittenDropsPayload(bytes[..Frame.HeaderLen], bytes[Frame.HeaderLen..]);
  }

  /** The corrected parser fetches a well-formed frame however its bytes
      are cut into reads, with no error. */
  lemma SplitFrameFetched(m: Frame.Message, chunks: seq<seq<byte>>, c: InputFilter.Channel)
    requires Frame.WellFormed(m) && Concat(chunks) == Frame.GenBytes(m)
    ensures var d := DriveAll(NewParser(), chunks);
      d.errors == [] && d.fetched == [InputFilter.Received(m)]
  {
    DriveAllMatchesExtractor(NewParser(), chunks, c);
    InputFilter.ExtractsFrame(Abs(NewParser(), c), m);
  }
}
