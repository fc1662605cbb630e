/** `RawMessageInputFilter`: cuts a byte stream into frames. Header bytes
    gather in a 14-byte buffer; a complete header announces a message whose
    payload is then filled from the following bytes; a full message is sent
    to the receiver channel, and the filter starts on the next header. The
    channel send becomes an entry in the `sent` log of the step. */
module InputFilter {
  import opened Bytes
  import opened Outcomes
  import Frame

  /** A channel, identified by a number. */
  type Channel = nat

  datatype Filter = Filter(
    headerBuf: seq<byte>,
    headerOffset: int,
    receiver: Option<Channel>,
    msg: Option<Frame.Message>)

  /** What every call relies on: the header buffer has its 14 bytes, the
      offset is inside it, and a message in progress still expects bytes
      (and started from a fully consumed header). */
  predicate Valid(f: Filter) {
    && |f.headerBuf| == Frame.HeaderLen
    && 0 <= f.headerOffset < Frame.HeaderLen
    && (f.msg.Some? ==> Frame.Receiving(f.msg.value) && f.msg.value.remains > 0 && f.headerOffset == 0)
  }

  /** Between frames: no header bytes and no message pending. */
  predicate Idle(f: Filter) {
    Valid(f) && f.headerOffset == 0 && f.msg.None?
  }

  function NewFilter(): (f: Filter)
    ensures Idle(f) && f.receiver.None?
  {
    Filter(Zeros(Frame.HeaderLen), 0, None, None)
  }

  /** `SetRawMessageReceiver`: a nil channel (`None`) unsets the receiver. */
  function SetReceiver(f: Filter, c: Option<Channel>): (r: Filter)
    ensures r.receiver == c
    ensures r.(receiver := f.receiver) == f
  {
    f.(receiver := c)
  }

  /** The outcome of a call: the new state, the messages sent in order, and
      the error that ended the call, if any. The filter's byte output is
      always empty, so it is not part of the step. `Blocked` stands for a
      send while no receiver is set: the source blocks there forever, and
      the state the model returns with it is never used again. */
  datatype Step = Step(f: Filter, sent: seq<Frame.Message>, err: Option<Error>)

  /** A message that left the filter: announced by an accepted header and
      filled completely. */
  predicate Complete(m: Frame.Message) {
    Frame.Receiving(m) && m.remains == 0
  }

  /** `WriteBytes`: the loop of the source, one header or one payload piece
      per round, as recursion over the remaining input. */
  function WriteBytes(f: Filter, input: seq<byte>): (r: Step)
    requires Valid(f)
    ensures Valid(r.f) && r.f.receiver == f.receiver
    ensures forall i :: 0 <= i < |r.sent| ==> Complete(r.sent[i])
    ensures |r.sent| > 0 ==> r.f.receiver.Some?
    ensures r.err.Some? ==> r.err.value in {FrameTooLarge, ChunkSizeMismatch, Blocked}
    ensures r.err.Some? ==> Idle(r.f)
    ensures |input| == 0 ==> r == Step(f, [], None)
    decreases |input|, 1
  {
    if |input| == 0 then Step(f, [], None)
    else if f.msg.None? then HeaderFill(f, input)
    else Feed(f, input)
  }

  /** One header round: copy as many bytes as the header still lacks; a
      complete header is decoded and the loop goes on with the rest. */
  function HeaderFill(f: Filter, input: seq<byte>): (r: Step)
    requires Valid(f) && f.msg.None? && |input| > 0
    ensures Valid(r.f) && r.f.receiver == f.receiver
    ensures forall i :: 0 <= i < |r.sent| ==> Complete(r.sent[i])
    ensures |r.sent| > 0 ==> r.f.receiver.Some?
    ensures r.err.Some? ==> r.err.value in {FrameTooLarge, ChunkSizeMismatch, Blocked}
    ensures r.err.Some? ==> Idle(r.f)
    decreases |input|, 0
  {
    var n := Min(|input|, Frame.HeaderLen - f.headerOffset);
    var buf := Copy(f.headerBuf, f.headerOffset, input[..n]);
    if f.headerOffset + n < Frame.HeaderLen then
      Step(f.(headerBuf := buf, headerOffset := f.headerOffset + n), [], None)
    else
      HeaderReady(f.(headerBuf := buf, headerOffset := 0), input[n..])
  }

  /** A full header sits in the buffer: decode it, then fill the message it
      announces. A refused header ends the call and drops the rest of the input. */
  function HeaderReady(f: Filter, rest: seq<byte>): (r: Step)
    requires Valid(f) && f.msg.None? && f.headerOffset == 0
    ensures Valid(r.f) && r.f.receiver == f.receiver
    ensures forall i :: 0 <= i < |r.sent| ==> Complete(r.sent[i])
    ensures |r.sent| > 0 ==> r.f.receiver.Some?
    ensures r.err.Some? ==> r.err.value in {FrameTooLarge, ChunkSizeMismatch, Blocked}
    ensures r.err.Some? ==> Idle(r.f)
    decreases |rest|, 2
  {
    match Frame.FromHeaderBuf(f.headerBuf)
    case Err(e) => Step(f, [], Some(e))
    case Ok(m) => Feed(f.(msg := Some(m)), rest)
  }

  /** One payload round: write `min(remains, avail)` bytes; a message that
      is now full is sent and the loop goes on with what is left. */
  function Feed(f: Filter, input: seq<byte>): (r: Step)
    requires Valid(f) && f.msg.Some?
    ensures Valid(r.f) && r.f.receiver == f.receiver
    ensures forall i :: 0 <= i < |r.sent| ==> Complete(r.sent[i])
    ensures |r.sent| > 0 ==> r.f.receiver.Some?
    ensures r.err.Some? ==> r.err.value in {FrameTooLarge, ChunkSizeMismatch, Blocked}
    ensures r.err.Some? ==> Idle(r.f)
    decreases |input|, 0
  {
    var m := f.msg.value;
    var k := Min(m.remains, |input|);
    var w := Frame.WriteBytes(m, input[..k]).value;
    if w.remains > 0 then Step(f.(msg := Some(w)), [], None)
    else if f.receiver.None? then Step(f.(msg := None), [], Some(Blocked))
    else
      var next := WriteBytes(f.(msg := None), input[k..]);
      Step(next.f, [w] + next.sent, next.err)
  }

  /** The step of `a` followed by a call on `b`, unless `a` already failed. */
  function Then(s1: Step, b: seq<byte>): Step
    requires Valid(s1.f)
  {
    if s1.err.Some? then s1
    else
      var s2 := WriteBytes(s1.f, b);
      Step(s2.f, s1.sent + s2.sent, s2.err)
  }

  /** Split independence: one call on `a + b` does what a call on `a` and
      then a call on `b` do, since everything between the two calls lives in
      the filter state. */
  lemma {:induction false} SplitLaw(f: Filter, a: seq<byte>, b: seq<byte>)
    requires Valid(f)
    ensures WriteBytes(f, a + b) == Then(WriteBytes(f, a), b)
    decreases |a|, 1
  {
    if |a| == 0 {
      assert a + b == b;
      var s2 := WriteBytes(f, b);
      assert [] + s2.sent == s2.sent;
    } else if f.msg.Some? {
      FeedSplit(f, a, b);
    } else if f.headerOffset + |a| < Frame.HeaderLen {
      HeaderPartSplit(f, a, b);
    } else {
      var n := Frame.HeaderLen - f.headerOffset;
      var g := f.(headerBuf := Copy(f.headerBuf, f.headerOffset, a[..n]), headerOffset := 0);
      HeaderSplit(g, a[n..], b);
      HeaderFullSplit(f, a, b);
    }
  }

  /** A call whose input completes the header: given the split law for the
      bytes after the header, it holds for the whole call. */
  lemma HeaderFullSplit(f: Filter, a: seq<byte>, b: seq<byte>)
    requires Valid(f) && f.msg.None? && f.headerOffset + |a| >= Frame.HeaderLen
    requires var n := Frame.HeaderLen - f.headerOffset;
      var g := f.(headerBuf := Copy(f.headerBuf, f.headerOffset, a[..n]), headerOffset := 0);
      HeaderReady(g, a[n..] + b) == Then(HeaderReady(g, a[n..]), b)
    ensures WriteBytes(f, a + b) == Then(WriteBytes(f, a), b)
  {
    var n := Frame.HeaderLen - f.headerOffset;
    var x := a + b;
    var g := f.(headerBuf := Copy(f.headerBuf, f.headerOffset, a[..n]), headerOffset := 0);
    PrefixSlices(a, b, n);
    HeaderDone(f, a, a[..n], a[n..]);
    HeaderDone(f, x, a[..n], a[n..] + b);
  }

  lemma PrefixSlices<T>(a: seq<T>, b: seq<T>, n: nat)
    requires n <= |a|
    ensures (a + b)[..n] == a[..n] && (a + b)[n..] == a[n..] + b
  {
  }

  /** Unfolding a call that completes the header: `head` fills it and
      `tail` follows it. */
  lemma HeaderDone(f: Filter, x: seq<byte>, head: seq<byte>, tail: seq<byte>)
    requires Valid(f) && f.msg.None? && f.headerOffset + |x| >= Frame.HeaderLen
    requires head == x[..Frame.HeaderLen - f.headerOffset] && tail == x[Frame.HeaderLen - f.headerOffset..]
    ensures WriteBytes(f, x) == HeaderReady(f.(headerBuf := Copy(f.headerBuf, f.headerOffset, head), headerOffset := 0), tail)
  {
  }

  /** Unfolding a non-empty call that ends inside the header. */
  lemma HeaderShort(f: Filter, x: seq<byte>)
    requires Valid(f) && f.msg.None? && |x| > 0 && f.headerOffset + |x| < Frame.HeaderLen
    ensures WriteBytes(f, x) == Step(f.(headerBuf := Copy(f.headerBuf, f.headerOffset, x), headerOffset := f.headerOffset + |x|), [], None)
  {
    assert x[..|x|] == x;
  }

  /** A call that ends inside the header leaves only header bytes behind;
      the next call continues the same header. */
  lemma HeaderPartSplit(f: Filter, a: seq<byte>, b: seq<byte>)
    requires Valid(f) && f.msg.None? && |a| > 0 && f.headerOffset + |a| < Frame.HeaderLen
    ensures WriteBytes(f, a + b) == Then(WriteBytes(f, a), b)
  {
    var f1 := f.(headerBuf := Copy(f.headerBuf, f.headerOffset, a), headerOffset := f.headerOffset + |a|);
    assert WriteBytes(f, a) == Step(f1, [], None) by {
      HeaderShort(f, a);
    }
    if |b| == 0 {
      assert a + b == a;
    } else {
      var s2 := WriteBytes(f1, b);
      assert Then(Step(f1, [], None), b) == s2 by {
        assert [] + s2.sent == s2.sent;
      }
      HeaderContinues(f, a, b);
    }
  }

  /** Header bytes split across two calls land in the same buffer. */
  lemma HeaderContinues(f: Filter, a: seq<byte>, b: seq<byte>)
    requires Valid(f) && f.msg.None? && |a| > 0 && |b| > 0 && f.headerOffset + |a| < Frame.HeaderLen
    ensures WriteBytes(f, a + b)
      == WriteBytes(f.(headerBuf := Copy(f.headerBuf, f.headerOffset, a), headerOffset := f.headerOffset + |a|), b)
  {
    if f.headerOffset + |a| + |b| < Frame.HeaderLen {
      HeaderStaysShort(f, a, b);
    } else {
      HeaderCompletes(f, a, b);
    }
  }

  lemma HeaderStaysShort(f: Filter, a: seq<byte>, b: seq<byte>)
    requires Valid(f) && f.msg.None? && |a| > 0 && |b| > 0 && f.headerOffset + |a| + |b| < Frame.HeaderLen
    ensures WriteBytes(f, a + b)
      == WriteBytes(f.(headerBuf := Copy(f.headerBuf, f.headerOffset, a), headerOffset := f.headerOffset + |a|), b)
  {
    ShortStates(f, a, b);
    ShortWhole(f, a, b);
    ShortSecond(f, a, b);
  }

  /** Two short header writes leave the state one write of both leaves. */
  lemma ShortStates(f: Filter, a: seq<byte>, b: seq<byte>)
    requires Valid(f) && f.msg.None? && f.headerOffset + |a| + |b| < Frame.HeaderLen
    ensures var off := f.headerOffset;
      f.(headerBuf := Copy(Copy(f.headerBuf, off, a), off + |a|, b), headerOffset := off + |a| + |b|)
      == f.(headerBuf := Copy(f.headerBuf, off, a + b), headerOffset := off + |a| + |b|)
  {
    CopyTwice(f.headerBuf, f.headerOffset, a, b);
  }

  lemma ShortWhole(f: Filter, a: seq<byte>, b: seq<byte>)
    requires Valid(f) && f.msg.None? && |a| > 0 && f.headerOffset + |a| + |b| < Frame.HeaderLen
    ensures WriteBytes(f, a + b) == Step(f.(headerBuf := Copy(f.headerBuf, f.headerOffset, a + b),
                                            headerOffset := f.headerOffset + |a| + |b|), [], None)
  {
    HeaderShort(f, a + b);
  }

  lemma ShortSecond(f: Filter, a: seq<byte>, b: seq<byte>)
    requires Valid(f) && f.msg.None? && |b| > 0 && f.headerOffset + |a| + |b| < Frame.HeaderLen
    ensures var f1 := f.(headerBuf := Copy(f.headerBuf, f.headerOffset, a), headerOffset := f.headerOffset + |a|);
      WriteBytes(f1, b) == Step(f.(headerBuf := Copy(Copy(f.headerBuf, f.headerOffset, a), f.headerOffset + |a|, b),
                                   headerOffset := f.headerOffset + |a| + |b|), [], None)
  {
    var f1 := f.(headerBuf := Copy(f.headerBuf, f.headerOffset, a), headerOffset := f.headerOffset + |a|);
    HeaderShort(f1, b);
  }

  lemma HeaderCompletes(f: Filter, a: seq<byte>, b: seq<byte>)
    requires Valid(f) && f.msg.None? && |a| > 0 && |b| > 0 && f.headerOffset + |a| < Frame.HeaderLen
    requires f.headerOffset + |a| + |b| >= Frame.HeaderLen
    ensures WriteBytes(f, a + b)
      == WriteBytes(f.(headerBuf := Copy(f.headerBuf, f.headerOffset, a), headerOffset := f.headerOffset + |a|), b)
  {
    var nb: nat := Frame.HeaderLen - f.headerOffset - |a|;
    CompleteWhole(f, a, b, nb);
    CompleteSecond(f, a, b, nb);
  }

  /** One call on `a + b` that completes the header with `nb` bytes of `b`. */
  lemma CompleteWhole(f: Filter, a: seq<byte>, b: seq<byte>, nb: nat)
    requires Valid(f) && f.msg.None? && nb <= |b| && f.headerOffset + |a| + nb == Frame.HeaderLen
    ensures WriteBytes(f, a + b)
      == HeaderReady(f.(headerBuf := Copy(f.headerBuf, f.headerOffset, a + b[..nb]), headerOffset := 0), b[nb..])
  {
    SplitSlices(a, b, nb);
    HeaderDone(f, a + b, a + b[..nb], b[nb..]);
  }

  /** The second of two calls, where `b` completes the header `a` began. */
  lemma CompleteSecond(f: Filter, a: seq<byte>, b: seq<byte>, nb: nat)
    requires Valid(f) && f.msg.None? && nb <= |b| && f.headerOffset + |a| + nb == Frame.HeaderLen && nb > 0
    ensures var f1 := f.(headerBuf := Copy(f.headerBuf, f.headerOffset, a), headerOffset := f.headerOffset + |a|);
      WriteBytes(f1, b)
      == HeaderReady(f.(headerBuf := Copy(f.headerBuf, f.headerOffset, a + b[..nb]), headerOffset := 0), b[nb..])
  {
    var off := f.headerOffset;
    var f1 := f.(headerBuf := Copy(f.headerBuf, off, a), headerOffset := off + |a|);
    HeaderDone(f1, b, b[..nb], b[nb..]);
    CopyTwice(f.headerBuf, off, a, b[..nb]);
  }

  lemma {:induction false} HeaderSplit(f: Filter, a: seq<byte>, b: seq<byte>)
    requires Valid(f) && f.msg.None? && f.headerOffset == 0
    ensures HeaderReady(f, a + b) == Then(HeaderReady(f, a), b)
    decreases |a|, 2
  {
    var r := Frame.FromHeaderBuf(f.headerBuf);
    if r.Ok? {
      var g := f.(msg := Some(r.value));
      Frame.AcceptedReceiving(f.headerBuf);
      FeedSplit(g, a, b);
      HeaderAccepted(f, a, r.value);
      HeaderAccepted(f, a + b, r.value);
    }
  }

  /** Unfolding a call on an accepted header. */
  lemma HeaderAccepted(f: Filter, rest: seq<byte>, m: Frame.Message)
    requires Valid(f) && f.msg.None? && f.headerOffset == 0 && Frame.FromHeaderBuf(f.headerBuf) == Ok(m)
    ensures Valid(f.(msg := Some(m))) && HeaderReady(f, rest) == Feed(f.(msg := Some(m)), rest)
  {
    Frame.AcceptedReceiving(f.headerBuf);
  }

  lemma {:induction false} FeedSplit(f: Filter, a: seq<byte>, b: seq<byte>)
    requires Valid(f) && f.msg.Some?
    ensures Feed(f, a + b) == Then(Feed(f, a), b)
    decreases |a|, 0
  {
    var m := f.msg.value;
    var rem := m.remains;
    if |a| >= rem {
      if f.receiver.Some? {
        SplitLaw(f.(msg := None), a[rem..], b);
      }
      FeedFullSplit(f, a, b);
    } else {
      FeedPartSplit(f, a, b);
    }
  }

  /** A call whose input completes the message: given the split law for
      what follows the message, it holds for the whole call. */
  lemma FeedFullSplit(f: Filter, a: seq<byte>, b: seq<byte>)
    requires Valid(f) && f.msg.Some? && |a| >= f.msg.value.remains
    requires f.receiver.Some? ==>
      var g := f.(msg := None);
      var rem := f.msg.value.remains;
      WriteBytes(g, a[rem..] + b) == Then(WriteBytes(g, a[rem..]), b)
    ensures Feed(f, a + b) == Then(Feed(f, a), b)
  {
    var rem := f.msg.value.remains;
    assert (a + b)[..rem] == a[..rem] && (a + b)[rem..] == a[rem..] + b;
    if f.receiver.Some? {
      FeedFullSent(f, a, b);
    }
  }

  lemma FeedFullSent(f: Filter, a: seq<byte>, b: seq<byte>)
    requires Valid(f) && f.msg.Some? && |a| >= f.msg.value.remains && f.receiver.Some?
    requires (a + b)[..f.msg.value.remains] == a[..f.msg.value.remains]
    requires (a + b)[f.msg.value.remains..] == a[f.msg.value.remains..] + b
    requires var g := f.(msg := None);
      var rem := f.msg.value.remains;
      WriteBytes(g, a[rem..] + b) == Then(WriteBytes(g, a[rem..]), b)
    ensures Feed(f, a + b) == Then(Feed(f, a), b)
  {
    var rem := f.msg.value.remains;
    var w := Frame.WriteBytes(f.msg.value, a[..rem]).value;
    var g := f.(msg := None);
    var n1 := WriteBytes(g, a[rem..]);
    var whole := WriteBytes(g, a[rem..] + b);
    FeedSends(f, a);
    FeedSends(f, a + b);
    assert Feed(f, a) == Step(n1.f, [w] + n1.sent, n1.err);
    assert Feed(f, a + b) == Step(whole.f, [w] + whole.sent, whole.err);
    assert whole == Then(n1, b);
    PrependSent(w, n1, b);
  }

  /** Sending `w` first commutes with running on. */
  lemma PrependSent(w: Frame.Message, n1: Step, b: seq<byte>)
    requires Valid(n1.f)
    ensures var s := Then(n1, b);
      Step(s.f, [w] + s.sent, s.err) == Then(Step(n1.f, [w] + n1.sent, n1.err), b)
  {
    if n1.err.None? {
      var s2 := WriteBytes(n1.f, b);
      assert [w] + (n1.sent + s2.sent) == ([w] + n1.sent) + s2.sent;
    }
  }

  /** A payload round that completes the message, with a receiver set. */
  lemma FeedSends(f: Filter, x: seq<byte>)
    requires Valid(f) && f.msg.Some? && |x| >= f.msg.value.remains && f.receiver.Some?
    ensures var rem := f.msg.value.remains;
      var w := Frame.WriteBytes(f.msg.value, x[..rem]).value;
      var n := WriteBytes(f.(msg := None), x[rem..]);
      Feed(f, x) == Step(n.f, [w] + n.sent, n.err)
  {
  }

  /** A call that ends inside a payload leaves the message half filled; the
      next call goes on filling the same message. */
  lemma FeedPartSplit(f: Filter, a: seq<byte>, b: seq<byte>)
    requires Valid(f) && f.msg.Some? && |a| < f.msg.value.remains
    ensures Feed(f, a + b) == Then(Feed(f, a), b)
  {
    var f1 := f.(msg := Some(Frame.WriteBytes(f.msg.value, a).value));
    assert Feed(f, a) == Step(f1, [], None) by {
      FeedKeeps(f, a);
    }
    if |b| == 0 {
      assert a + b == a;
    } else {
      var s2 := Feed(f1, b);
      assert Then(Step(f1, [], None), b) == s2 by {
        assert WriteBytes(f1, b) == s2;
        assert [] + s2.sent == s2.sent;
      }
      assert Feed(f, a + b) == s2 by {
        FeedContinues(f, a, b);
      }
    }
  }

  /** Payload split across two calls lands in the same message. */
  lemma FeedContinues(f: Filter, a: seq<byte>, b: seq<byte>)
    requires Valid(f) && f.msg.Some? && |a| < f.msg.value.remains && |b| > 0
    ensures Feed(f, a + b) == Feed(f.(msg := Some(Frame.WriteBytes(f.msg.value, a).value)), b)
  {
    var m := f.msg.value;
    var wa := Frame.WriteBytes(m, a).value;
    var f1 := f.(msg := Some(wa));
    var g := f.(msg := None);
    var x := a + b;
    var kb := Min(wa.remains, |b|);
    var k := |a| + kb;
    assert k == Min(m.remains, |x|);
    var head, tail := x[..k], x[k..];
    SplitSlices(a, b, kb);
    var w := Frame.WriteBytes(wa, b[..kb]).value;
    assert Frame.WriteBytes(m, head).value == w by {
      Frame.WriteTwice(m, a, b[..kb]);
    }
    assert Feed(f, x) == FeedWith(g, w, tail) by {
      FeedIs(f, x, k);
    }
    assert Feed(f1, b) == FeedWith(g, w, tail) by {
      FeedIs(f1, b, kb);
      assert f1.(msg := None) == g;
    }
  }

  lemma SplitSlices<T>(a: seq<T>, b: seq<T>, kb: nat)
    requires kb <= |b|
    ensures (a + b)[..|a| + kb] == a + b[..kb] && (a + b)[|a| + kb..] == b[kb..]
  {
  }

  /** A payload round that leaves the message short keeps it. */
  lemma FeedKeeps(f: Filter, x: seq<byte>)
    requires Valid(f) && f.msg.Some? && |x| < f.msg.value.remains
    ensures Feed(f, x) == Step(f.(msg := Some(Frame.WriteBytes(f.msg.value, x).value)), [], None)
  {
    assert x[..|x|] == x;
  }

  /** What a payload round does once its bytes are written: keep `w`, or
      send it and go on with `tail`. */
  function FeedWith(g: Filter, w: Frame.Message, tail: seq<byte>): Step
    requires Valid(g) && g.msg.None?
  {
    if w.remains > 0 then Step(g.(msg := Some(w)), [], None)
    else if g.receiver.None? then Step(g, [], Some(Blocked))
    else
      var next := WriteBytes(g, tail);
      Step(next.f, [w] + next.sent, next.err)
  }

  lemma FeedIs(f: Filter, x: seq<byte>, k: nat)
    requires Valid(f) && f.msg.Some? && k == Min(f.msg.value.remains, |x|)
    ensures Feed(f, x) == FeedWith(f.(msg := None), Frame.WriteBytes(f.msg.value, x[..k]).value, x[k..])
  {
  }

  /** A payload round given exactly the bytes the message still expects. */
  lemma FeedFills(f: Filter, x: seq<byte>)
    requires Valid(f) && f.msg.Some? && |x| == f.msg.value.remains
    ensures Feed(f, x) == FeedWith(f.(msg := None), Frame.WriteBytes(f.msg.value, x).value, [])
  {
    FeedIs(f, x, |x|);
    assert x[..|x|] == x && x[|x|..] == [];
  }

  /** The message the filter sends for a well-formed frame: the same fields
      and data, filled to the end. */
  function Received(m: Frame.Message): Frame.Message {
    m.(remains := 0, offset := |m.data|)
  }

  /** An idle filter fed one whole well-formed frame sends exactly that
      message and is idle again. */
  lemma ExtractsFrame(f: Filter, m: Frame.Message)
    requires Idle(f) && f.receiver.Some? && Frame.WellFormed(m)
    ensures WriteBytes(f, Frame.GenBytes(m)) ==
            Step(f.(headerBuf := Frame.GenBytes(m)[..Frame.HeaderLen]), [Received(m)], None)
  {
    var bytes := Frame.GenBytes(m);
    Frame.GenBytesSplit(m);
    var head, rest := bytes[..Frame.HeaderLen], bytes[Frame.HeaderLen..];
    HeaderDone(f, bytes, head, rest);
    CopyWhole(f.headerBuf, head);
    var g := f.(headerBuf := head);
    Frame.HeaderDecodes(m.chunkSize, m.mainCmdId, m.subCmdId, m.dataSize, m.dataType);
    var h := Frame.Message(m.chunkSize, m.mainCmdId, m.subCmdId, m.dataSize, m.dataType,
                           Zeros(|m.data|), |m.data|, 0);
    HeaderAccepted(g, rest, h);
    FeedFills(g.(msg := Some(h)), rest);
    var w := Frame.WriteBytes(h, rest).value;
    assert w.data == m.data;
    assert FeedWith(g, w, []) == Step(g, [w], None);
  }

  /** The bytes of several frames, one after the other. */
  function Frames(ms: seq<Frame.Message>): seq<byte> {
    if |ms| == 0 then [] else Frame.GenBytes(ms[0]) + Frames(ms[1..])
  }

  /** The messages the filter sends for a run of well-formed frames. */
  function AllReceived(ms: seq<Frame.Message>): (r: seq<Frame.Message>)
    ensures |r| == |ms| && forall i :: 0 <= i < |ms| ==> r[i] == Received(ms[i])
  {
    if |ms| == 0 then [] else [Received(ms[0])] + AllReceived(ms[1..])
  }

  /** An idle filter fed the frames of well-formed messages in one call
      sends every one of them, in order, and ends idle. */
  lemma {:induction false} ExtractsFrames(f: Filter, ms: seq<Frame.Message>)
    requires Idle(f) && f.receiver.Some?
    requires forall i :: 0 <= i < |ms| ==> Frame.WellFormed(ms[i])
    ensures var r := WriteBytes(f, Frames(ms));
      r.err.None? && Idle(r.f) && r.sent == AllReceived(ms)
    decreases |ms|
  {
    if |ms| > 0 {
      var one := Frame.GenBytes(ms[0]);
      SplitLaw(f, one, Frames(ms[1..]));
      ExtractsFrame(f, ms[0]);
      var f1 := f.(headerBuf := one[..Frame.HeaderLen]);
      ExtractsFrames(f1, ms[1..]);
    }
  }

  /** Feeds the chunks of a stream one call at a time, stopping at the
      first error. */
  function Run(f: Filter, chunks: seq<seq<byte>>): (r: Step)
    requires Valid(f)
    ensures Valid(r.f)
    decreases |chunks|
  {
    if |chunks| == 0 then Step(f, [], None)
    else
      var s1 := WriteBytes(f, chunks[0]);
      if s1.err.Some? then s1
      else
        var rest := Run(s1.f, chunks[1..]);
        Step(rest.f, s1.sent + rest.sent, rest.err)
  }

  /** However a stream is cut into calls, the filter sends the same messages,
      ends in the same state and reports the same error as one call on the
      whole stream. */
  lemma {:induction false} RunIsOneCall(f: Filter, chunks: seq<seq<byte>>)
    requires Valid(f)
    ensures Run(f, chunks) == WriteBytes(f, Concat(chunks))
    decreases |chunks|
  {
    if |chunks| > 0 {
      SplitLaw(f, chunks[0], Concat(chunks[1..]));
      var s1 := WriteBytes(f, chunks[0]);
      if s1.err.None? {
        RunIsOneCall(s1.f, chunks[1..]);
      }
    }
  }
}
