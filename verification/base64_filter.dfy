/** `Base64DecodeFilter`: a streaming base64 decoder. Characters that do not
    yet make a whole group of four wait in a 12-byte tuple buffer; each call
    first tops that buffer up from the input and decodes its whole groups,
    then decodes the rest of the input directly and stashes what is left. */
module Base64Filter {
  import opened Bytes
  import opened Outcomes
  import Base64

  const TupleLen: int := 4
  const NumberOfTuples: int := 3
  const TupleBuffSize: int := TupleLen * NumberOfTuples

  /** `tupleAvail` is a Go `int`: the source never bounds it, so neither does the model. */
  datatype Filter = Filter(tupleBuff: seq<byte>, tupleAvail: int)

  /** The outcome of one `WriteBytes` call. */
  datatype Step = Step(f: Filter, output: seq<byte>, err: Option<Error>)

  predicate Valid(f: Filter) {
    |f.tupleBuff| == TupleBuffSize && 0 <= f.tupleAvail
  }

  /** Fewer characters buffered than one whole group: the state a call
      should leave behind. */
  predicate Settled(f: Filter) {
    Valid(f) && f.tupleAvail < TupleLen
  }

  /** The buffered characters still waiting for the rest of their group. */
  function Pending(f: Filter): seq<byte>
    requires Valid(f) && f.tupleAvail <= TupleBuffSize
  {
    f.tupleBuff[..f.tupleAvail]
  }

  function NewFilter(): (f: Filter)
    ensures Settled(f) && Pending(f) == []
  {
    Filter(Zeros(TupleBuffSize), 0)
  }

  datatype Fill = Fill(f: Filter, used: nat)

  /** `fillTupleBuffer`: with nothing buffered it takes nothing; otherwise it
      moves as many input bytes as fit into the tuple buffer. A count beyond
      the buffer's size makes the slice expression panic. */
  function FillTupleBuffer(f: Filter, input: seq<byte>): (r: Result<Fill>)
    requires Valid(f)
    ensures f.tupleAvail == 0 ==> r == Ok(Fill(f, 0))
    ensures f.tupleAvail > TupleBuffSize <==> r == Err(SliceBounds)
    ensures 0 < f.tupleAvail <= TupleBuffSize ==> (r.Ok? &&
      var g := r.value.f;
      && r.value.used == Min(|input|, TupleBuffSize - f.tupleAvail)
      && Valid(g) && g.tupleAvail == f.tupleAvail + r.value.used <= TupleBuffSize
      && Pending(g) == Pending(f) + input[..r.value.used])
  {
    if f.tupleAvail == 0 then Ok(Fill(f, 0))
    else if f.tupleAvail > TupleBuffSize then Err(SliceBounds)
    else
      var used := Min(|input|, TupleBuffSize - f.tupleAvail);
      var g := Filter(Copy(f.tupleBuff, f.tupleAvail, input[..used]), f.tupleAvail + used);
      assert Pending(g) == Pending(f) + input[..used] by {
        CopyContents(f.tupleBuff, f.tupleAvail, input[..used]);
        assert g.tupleBuff[..f.tupleAvail] == f.tupleBuff[..f.tupleAvail];
        assert g.tupleBuff[f.tupleAvail..g.tupleAvail] == input[..used];
        assert Pending(g) == g.tupleBuff[..f.tupleAvail] + g.tupleBuff[f.tupleAvail..g.tupleAvail];
      }
      Ok(Fill(g, used))
  }

  /** `decodeTupleBuffer`: fewer than four buffered characters are left
      alone; otherwise the largest whole-group prefix is decoded and the
      leftover (fewer than four) moves to the head of the buffer. */
  function DecodeTupleBuffer(f: Filter): (r: (Filter, Base64.Decoded))
    requires Valid(f) && f.tupleAvail <= TupleBuffSize
    ensures Valid(r.0) && r.0.tupleAvail < TupleLen
    ensures f.tupleAvail < TupleLen ==> r == (f, Base64.Decoded([], false))
    ensures f.tupleAvail >= TupleLen ==>
      var whole := f.tupleAvail - f.tupleAvail % TupleLen;
      && r.1 == Base64.Decode(Pending(f)[..whole])
      && r.0.tupleAvail == f.tupleAvail % TupleLen
      && Pending(r.0) == Pending(f)[whole..]
  {
    if f.tupleAvail < TupleLen then (f, Base64.Decoded([], false))
    else
      var whole := f.tupleAvail - f.tupleAvail % TupleLen;
      var d := Base64.Decode(f.tupleBuff[0..whole]);
      assert f.tupleBuff[0..whole] == Pending(f)[..whole];
      if f.tupleAvail > whole then
        var g := Filter(Copy(f.tupleBuff, 0, f.tupleBuff[whole..f.tupleAvail]), f.tupleAvail - whole);
        assert Pending(g) == Pending(f)[whole..] by {
          CopyContents(f.tupleBuff, 0, f.tupleBuff[whole..f.tupleAvail]);
        }
        (g, d)
      else
        (f.(tupleAvail := 0), d)
  }

  /** `WriteBytes` exactly as written. After the tuple buffer, the rest of the
      input is decoded in place (see `RestAsWritten`). The decoder's errors
      are discarded. */
  function WriteBytesAsWritten(f: Filter, input: seq<byte>): (r: Step)
    requires Valid(f)
    ensures Valid(r.f)
    ensures f.tupleAvail > TupleBuffSize ==> r.err == Some(SliceBounds)
    ensures f.tupleAvail < TupleLen ==> r.err.None?
    ensures r.err.None? ==> (f.tupleAvail <= TupleBuffSize &&
      var (g, d1) := DecodeTupleBuffer(FillTupleBuffer(f, input).value.f);
      var used := FillTupleBuffer(f, input).value.used;
      && (used == |input| ==> r == Step(g, d1.out, None))
      && (used < |input| ==> r.output == d1.out + Base64.Decode(input[used..]).out))
  {
    match FillTupleBuffer(f, input)
    case Err(e) => Step(f, [], Some(e))
    case Ok(fill) =>
      var (g, d1) := DecodeTupleBuffer(fill.f);
      var used := fill.used;
      if used == |input| then Step(g, d1.out, None)
      else if used < |d1.out| then Step(g, [], Some(UnknownError))
      else
        FillDrains(f, input);
        RestAsWritten(g, d1.out, input[used..])
  }

  /** A call that has input left over after topping up the tuple buffer
      has filled it to a whole number of groups, so decoding it drains it. */
  lemma FillDrains(f: Filter, input: seq<byte>)
    requires Valid(f) && f.tupleAvail <= TupleBuffSize
    requires FillTupleBuffer(f, input).value.used < |input|
    ensures DecodeTupleBuffer(FillTupleBuffer(f, input).value.f).0.tupleAvail == 0
  {
    var fill := FillTupleBuffer(f, input).value;
    if f.tupleAvail > 0 {
      assert fill.f.tupleAvail == TupleBuffSize;
      assert TupleBuffSize % TupleLen == 0;
    }
  }

  /** The direct decode as written, reached with the tuple buffer empty
      (a call gets past the buffer only after filling and draining it): the characters consumed are reckoned as
      `decodeLen2 * 8 / 6`; everything after them is copied into the tuple
      buffer (truncated to what fits) while `tupleAvail` grows by the full
      count. */
  function RestAsWritten(g: Filter, d1: seq<byte>, rest: seq<byte>): (r: Step)
    requires Valid(g) && g.tupleAvail == 0
    ensures Valid(r.f) && r.err.None?
    ensures r.output == d1 + Base64.Decode(rest).out
    ensures r.f.tupleAvail == |rest| - |Base64.Decode(rest).out| * 8 / 6
    ensures r.f.tupleAvail <= TupleBuffSize ==> Pending(r.f) == rest[|rest| - r.f.tupleAvail..]
  {
    var d2 := Base64.Decode(rest);
    var consumed := |d2.out| * 8 / 6;
    assert consumed <= |rest| by {
      CountBound(|d2.out|, |rest|);
    }
    CopyContents(g.tupleBuff, g.tupleAvail, rest[consumed..]);
    Step(Filter(Copy(g.tupleBuff, g.tupleAvail, rest[consumed..]), g.tupleAvail + |rest| - consumed),
         d1 + d2.out, None)
  }

  /** The corrected `WriteBytes` the rest of the model uses: corruption in
      the tuple buffer is reported instead of discarded, the direct decode
      takes only whole groups, a corrupt group is reported instead of
      stashed, and only the trailing partial group (fewer than four
      characters) goes into the tuple buffer. */
  function WriteBytes(f: Filter, input: seq<byte>): (r: Step)
    requires Valid(f)
    ensures Valid(r.f)
    ensures Settled(f) ==> Settled(r.f) && r.err != Some(SliceBounds) && r.err != Some(UnknownError)
    ensures f.tupleAvail > TupleBuffSize ==> r.err == Some(SliceBounds)
  {
    match FillTupleBuffer(f, input)
    case Err(e) => Step(f, [], Some(e))
    case Ok(fill) =>
      var (g, d1) := DecodeTupleBuffer(fill.f);
      var used := fill.used;
      if d1.corrupt then Step(g, [], Some(CorruptInput))
      else if used == |input| then Step(g, d1.out, None)
      else if used < |d1.out| then Step(g, [], Some(UnknownError))
      else
        FillDrains(f, input);
        Rest(g, d1.out, input[used..])
  }

  /** The corrected direct decode, reached with the tuple buffer empty:
      whole groups only; a corrupt group is an
      error, and the trailing partial group is stashed. */
  function Rest(g: Filter, d1: seq<byte>, rest: seq<byte>): (r: Step)
    requires Valid(g) && g.tupleAvail == 0
    ensures Settled(r.f)
    ensures r.err.Some? <==> Base64.Decode(WholePart(rest)).corrupt
    ensures r.err.Some? ==> r == Step(g, [], Some(CorruptInput))
    ensures r.err.None? ==> r.output == d1 + Base64.Decode(WholePart(rest)).out
  {
    var d2 := Base64.Decode(WholePart(rest));
    if d2.corrupt then Step(g, [], Some(CorruptInput))
    else Step(Filter(Copy(g.tupleBuff, g.tupleAvail, rest[|WholePart(rest)|..]), g.tupleAvail + |rest| % TupleLen),
              d1 + d2.out, None)
  }

  lemma CountBound(n: nat, len: nat)
    requires n * 4 <= len * 3
    ensures n * 8 / 6 <= len
  {
  }

  /** With nothing buffered, the corrected direct decode keeps exactly the
      trailing partial group pending. */
  lemma RestPending(g: Filter, d1: seq<byte>, rest: seq<byte>)
    requires Valid(g) && g.tupleAvail == 0 && !Base64.Decode(WholePart(rest)).corrupt
    ensures Pending(Rest(g, d1, rest).f) == rest[|rest| - |rest| % TupleLen..]
  {
    var whole := |rest| - |rest| % TupleLen;
    CopyContents(g.tupleBuff, 0, rest[whole..]);
    assert Rest(g, d1, rest).f.tupleBuff[..|rest| - whole] == rest[whole..];
  }

  /** Feeds the chunks of a stream one call at a time, concatenating the
      outputs, and stops at the first error. */
  function Run(f: Filter, chunks: seq<seq<byte>>): (r: Step)
    requires Valid(f)
    ensures Valid(r.f)
    ensures |chunks| == 0 ==> r == Step(f, [], None)
    decreases |chunks|
  {
    if |chunks| == 0 then Step(f, [], None)
    else
      var s := WriteBytes(f, chunks[0]);
      if s.err.Some? then s
      else
        var rest := Run(s.f, chunks[1..]);
        Step(rest.f, s.output + rest.output, rest.err)
  }

  /** The characters a call decodes: everything pending plus the input, up to
      the last whole group. */
  function WholePart(s: seq<byte>): (r: seq<byte>)
    ensures |r| == |s| - |s| % TupleLen && r == s[..|r|]
  {
    s[..|s| - |s| % TupleLen]
  }

  /** What a call, or a run of calls, achieves on the characters `all`
      (those pending before it, followed by what it was fed), when they
      hold no padding: it fails exactly when their whole groups hold a stray
      byte; otherwise it decodes exactly those groups and keeps the trailing
      partial group pending. */
  predicate DecodesGroups(all: seq<byte>, s: Step) {
    var w := WholePart(all);
    && (s.err.Some? <==> !Base64.AllInAlphabet(w))
    && (s.err.Some? ==> s.err == Some(CorruptInput))
    && (s.err.None? ==> && Settled(s.f)
                        && all == w + Pending(s.f)
                        && s.output == Base64.Decode(w).out)
  }

  lemma StepInvariant(f: Filter, input: seq<byte>)
    requires Settled(f) && Base64.NoPadding(Pending(f)) && Base64.NoPadding(input)
    ensures WriteBytes(f, input).f.tupleAvail < TupleLen
    ensures DecodesGroups(Pending(f) + input, WriteBytes(f, input))
  {
    var used := FillTupleBuffer(f, input).value.used;
    if f.tupleAvail == 0 {
      StepFresh(f, input);
    } else if used == |input| {
      StepWithinTuple(f, input);
    } else {
      StepPastTuple(f, input);
    }
  }

  lemma StepFresh(f: Filter, input: seq<byte>)
    requires Settled(f) && f.tupleAvail == 0 && Base64.NoPadding(input)
    ensures WriteBytes(f, input).f.tupleAvail < TupleLen
    ensures DecodesGroups(Pending(f) + input, WriteBytes(f, input))
  {
    if |input| > 0 {
      FreshIsRest(f, input);
      RestDecodes(f, input);
    } else {
      assert Pending(f) + input == [];
    }
  }

  /** The direct decode from an empty buffer meets the step invariant. */
  lemma RestDecodes(f: Filter, input: seq<byte>)
    requires Settled(f) && f.tupleAvail == 0 && Base64.NoPadding(input)
    ensures Rest(f, [], input).f.tupleAvail < TupleLen
    ensures DecodesGroups(Pending(f) + input, Rest(f, [], input))
  {
    var whole := WholeNoPadding(input);
    NothingPending(f, input);
    if !Base64.Decode(WholePart(input)).corrupt {
      RestPending(f, [], input);
      Base64.SplitAt(input, whole);
    }
  }

  lemma NothingPending(f: Filter, input: seq<byte>)
    requires Valid(f) && f.tupleAvail == 0
    ensures Pending(f) + input == input
  {
  }

  /** With nothing buffered, a non-empty call goes straight to the direct decode. */
  lemma FreshIsRest(f: Filter, input: seq<byte>)
    requires Settled(f) && f.tupleAvail == 0 && |input| > 0
    ensures WriteBytes(f, input) == Rest(f, [], input)
  {
    assert FillTupleBuffer(f, input) == Ok(Fill(f, 0));
    assert DecodeTupleBuffer(f) == (f, Base64.Decoded([], false));
    assert input[0..] == input;
  }

  /** The whole groups of characters without padding decode without
      corruption exactly when they hold no stray byte. */
  lemma WholeNoPadding(s: seq<byte>) returns (whole: nat)
    requires Base64.NoPadding(s)
    ensures whole == |s| - |s| % TupleLen && whole <= |s|
    ensures WholePart(s) == s[..whole] && Base64.NoPadding(WholePart(s))
    ensures Base64.Decode(WholePart(s)).corrupt <==> !Base64.AllInAlphabet(WholePart(s))
  {
    whole := |s| - |s| % TupleLen;
    Base64.WholeGroupsLength(|s|);
    Base64.NoPaddingSlices(s, whole);
    Base64.DecodeNoPadding(s[..whole]);
  }

  lemma StepWithinTuple(f: Filter, input: seq<byte>)
    requires Settled(f) && f.tupleAvail > 0 && Base64.NoPadding(Pending(f)) && Base64.NoPadding(input)
    requires FillTupleBuffer(f, input).value.used == |input|
    ensures WriteBytes(f, input).f.tupleAvail < TupleLen
    ensures DecodesGroups(Pending(f) + input, WriteBytes(f, input))
  {
    var fill := FillTupleBuffer(f, input).value;
    var all := Pending(f) + input;
    assert input[..|input|] == input;
    assert Pending(fill.f) == all;
    var n := |all| - |all| % TupleLen;
    Base64.WholeGroupsLength(|all|);
    Base64.SplitAt(all, n);
    if fill.f.tupleAvail < TupleLen {
      assert n == 0;
      assert WholePart(all) == [];
    } else {
      Base64.NoPaddingJoin(Pending(f), input);
      var whole := WholeNoPadding(all);
    }
  }

  lemma StepPastTuple(f: Filter, input: seq<byte>)
    requires Settled(f) && f.tupleAvail > 0
    requires Base64.NoPadding(Pending(f)) && Base64.NoPadding(input)
    requires FillTupleBuffer(f, input).value.used < |input|
    ensures WriteBytes(f, input).f.tupleAvail < TupleLen
    ensures DecodesGroups(Pending(f) + input, WriteBytes(f, input))
  {
    var fill := FillTupleBuffer(f, input).value;
    var used := fill.used;
    var head := Pending(fill.f);
    var (g, d1) := DecodeTupleBuffer(fill.f);
    var rest := input[used..];
    FullTuple(f, input);
    var whole := WholeNoPadding(rest);
    PastTupleParts(Pending(f), input, used, whole);
    Base64.AlphabetConcat(head, rest[..whole]);
    if !d1.corrupt {
      PastBuffer(f, input);
      if Base64.AllInAlphabet(rest[..whole]) {
        assert !Base64.Decode(WholePart(rest)).corrupt;
        RestPending(g, d1.out, rest);
        Base64.DecodeAppend(head, rest[..whole]);
      }
    }
  }

  /** A call that overflows the tuple buffer fills it to twelve characters;
      they decode without corruption exactly when none is a stray byte, and
      then into nine bytes. */
  lemma FullTuple(f: Filter, input: seq<byte>)
    requires Settled(f) && f.tupleAvail > 0
    requires Base64.NoPadding(Pending(f)) && Base64.NoPadding(input)
    requires FillTupleBuffer(f, input).value.used < |input|
    ensures var fill := FillTupleBuffer(f, input).value;
      var head := Pending(fill.f);
      && fill.f.tupleAvail == TupleBuffSize && head == Pending(f) + input[..fill.used]
      && Base64.NoPadding(input[fill.used..])
      && DecodeTupleBuffer(fill.f).1 == Base64.Decode(head)
      && (Base64.Decode(head).corrupt <==> !Base64.AllInAlphabet(head))
      && (!Base64.Decode(head).corrupt ==> |Base64.Decode(head).out| == 9 <= fill.used)
  {
    var fill := FillTupleBuffer(f, input).value;
    assert fill.f.tupleAvail == TupleBuffSize;
    var head := Pending(fill.f);
    assert |head| == TupleBuffSize && head[..TupleBuffSize] == head;
    assert TupleBuffSize - TupleBuffSize % TupleLen == TupleBuffSize;
    assert DecodeTupleBuffer(fill.f).1 == Base64.Decode(head[..TupleBuffSize]);
    Base64.NoPaddingSlices(input, fill.used);
    Base64.NoPaddingJoin(Pending(f), input[..fill.used]);
    Base64.DecodeNoPadding(head);
    if Base64.AllInAlphabet(head) {
      DecodeTwelve(head);
    }
  }

  /** Twelve alphabet characters decode into nine bytes. */
  lemma DecodeTwelve(h: seq<byte>)
    requires Base64.AllInAlphabet(h) && |h| == TupleBuffSize
    ensures |Base64.Decode(h).out| == 9
  {
    Base64.DecodeAlphabet(h);
    assert |h| / 4 == 3;
  }

  lemma PastTupleParts(p: seq<byte>, input: seq<byte>, used: nat, whole: nat)
    requires |p| + used == TupleBuffSize && used <= |input|
    requires whole == |input[used..]| - |input[used..]| % TupleLen
    ensures WholePart(p + input) == (p + input[..used]) + input[used..][..whole]
    ensures p + input == WholePart(p + input) + input[used..][whole..]
  {
    var all := p + input;
    assert all == (p + input[..used]) + input[used..];
    assert |all| % TupleLen == |input[used..]| % TupleLen;
  }

  /** Split independence: from a settled state whose pending characters
      hold no padding, feeding a stream without padding in any chunks fails
      exactly when the whole groups of the pending characters and the stream
      hold a stray byte; otherwise it yields their decode, however the
      stream is cut, and keeps the trailing partial group pending. */
  lemma {:induction false} RunChecks(f: Filter, chunks: seq<seq<byte>>)
    requires Settled(f) && Base64.NoPadding(Pending(f))
    requires forall i :: 0 <= i < |chunks| ==> Base64.NoPadding(chunks[i])
    ensures DecodesGroups(Pending(f) + Concat(chunks), Run(f, chunks))
    decreases |chunks|
  {
    if |chunks| == 0 {
      assert Pending(f) + Concat(chunks) == Pending(f);
      assert WholePart(Pending(f)) == [];
    } else {
      var c := chunks[0];
      var s := WriteBytes(f, c);
      StepInvariant(f, c);
      if s.err.None? {
        var w := WholePart(Pending(f) + c);
        Base64.NoPaddingJoin(Pending(f), c);
        Base64.NoPaddingSlices(Pending(f) + c, |w|);
        assert Pending(s.f) == (Pending(f) + c)[|w|..];
        RunChecks(s.f, chunks[1..]);
      }
      RunCons(f, chunks);
    }
  }

  /** One step of `RunChecks`: a first call that decodes its groups,
      followed by a run that decodes the groups of its leftover and the
      rest of the stream, decodes the groups of the whole stream. */
  lemma RunCons(f: Filter, chunks: seq<seq<byte>>)
    requires Settled(f) && |chunks| > 0
    requires DecodesGroups(Pending(f) + chunks[0], WriteBytes(f, chunks[0]))
    requires var s := WriteBytes(f, chunks[0]);
      s.err.None? ==> DecodesGroups(Pending(s.f) + Concat(chunks[1..]), Run(s.f, chunks[1..]))
    ensures DecodesGroups(Pending(f) + Concat(chunks), Run(f, chunks))
  {
    var s := WriteBytes(f, chunks[0]);
    assert Concat(chunks) == chunks[0] + Concat(chunks[1..]);
    if s.err.Some? {
      assert Run(f, chunks) == s;
      FirstFails(Pending(f), chunks[0], Concat(chunks[1..]), s);
    } else {
      var r := Run(s.f, chunks[1..]);
      assert Run(f, chunks) == Step(r.f, s.output + r.output, r.err);
      ThenGroups(Pending(f), chunks[0], Concat(chunks[1..]), s, r);
    }
  }

  /** Sequencing two outcomes: a step that decodes the groups of `p + c`
      and succeeds, then one that decodes the groups of its leftover
      followed by `t`, together decode the groups of `p + c + t`. */
  lemma ThenGroups(p: seq<byte>, c: seq<byte>, t: seq<byte>, s: Step, r: Step)
    requires DecodesGroups(p + c, s) && s.err.None?
    requires DecodesGroups(Pending(s.f) + t, r)
    ensures DecodesGroups(p + (c + t), Step(r.f, s.output + r.output, r.err))
  {
    var w := WholePart(p + c);
    var q := (p + c)[|w|..];
    GroupsJoin(p, c, t);
    PrefixCancel(w, q, Pending(s.f));
    var w2 := WholePart(q + t);
    Base64.AlphabetConcat(w, w2);
    if r.err.None? {
      Base64.DecodeAppend(w, w2);
      Assoc(w, w2, Pending(r.f));
    }
  }

  /** A first step that fails fails the whole stream. */
  lemma FirstFails(p: seq<byte>, c: seq<byte>, t: seq<byte>, s: Step)
    requires DecodesGroups(p + c, s) && s.err.Some?
    ensures DecodesGroups(p + (c + t), s)
  {
    var w := WholePart(p + c);
    var q := (p + c)[|w|..];
    GroupsJoin(p, c, t);
    Base64.AlphabetConcat(w, WholePart(q + t));
  }

  lemma Assoc<T>(a: seq<T>, b: seq<T>, c: seq<T>)
    ensures a + (b + c) == (a + b) + c
  {
  }

  lemma PrefixCancel<T>(w: seq<T>, a: seq<T>, b: seq<T>)
    requires w + a == w + b
    ensures a == b
  {
    assert a == (w + a)[|w|..];
    assert b == (w + b)[|w|..];
  }

  /** The whole groups of a call's characters followed by the rest of the
      stream are those of the call followed by those of its leftover and
      the rest. */
  lemma GroupsJoin(p: seq<byte>, c: seq<byte>, t: seq<byte>)
    ensures var w := WholePart(p + c);
      var q := (p + c)[|w|..];
      && p + c == w + q && |w| % TupleLen == 0
      && p + (c + t) == w + (q + t)
      && WholePart(p + (c + t)) == w + WholePart(q + t)
  {
    var w := WholePart(p + c);
    var q := (p + c)[|w|..];
    assert p + c == w + q;
    Regroup(p, c, w, q, t);
    Base64.WholeGroupsLength(|p + c|);
    WholeShift(w, q + t);
  }

  /** Whole groups in front stay whole groups of any extension. */
  lemma WholeShift(w: seq<byte>, y: seq<byte>)
    requires |w| % TupleLen == 0
    ensures WholePart(w + y) == w + WholePart(y)
  {
    assert |w + y| % TupleLen == |y| % TupleLen;
    assert (w + y)[..|w| + |WholePart(y)|] == w + y[..|WholePart(y)|];
  }

  /** The alphabet-only case: no chunk fails, and the output is what one
      decode of the pending characters and the whole stream gives. */
  lemma RunDecodes(f: Filter, chunks: seq<seq<byte>>)
    requires Settled(f) && Base64.AllInAlphabet(Pending(f))
    requires forall i :: 0 <= i < |chunks| ==> Base64.AllInAlphabet(chunks[i])
    ensures Run(f, chunks).err.None?
    ensures Run(f, chunks).output == Base64.Decode(Pending(f) + Concat(chunks)).out
  {
    var all := Pending(f) + Concat(chunks);
    Base64.AlphabetNoPadding(Pending(f));
    forall i | 0 <= i < |chunks| ensures Base64.NoPadding(chunks[i]) {
      Base64.AlphabetNoPadding(chunks[i]);
    }
    RunChecks(f, chunks);
    ConcatAlphabet(chunks);
    Base64.AlphabetJoin(Pending(f), Concat(chunks));
    Base64.AlphabetPrefix(all, |WholePart(all)|);
    Base64.DecodeWholeGroups(all);
  }

  lemma {:induction false} ConcatAlphabet(chunks: seq<seq<byte>>)
    requires forall i :: 0 <= i < |chunks| ==> Base64.AllInAlphabet(chunks[i])
    ensures Base64.AllInAlphabet(Concat(chunks))
    decreases |chunks|
  {
    if |chunks| > 0 {
      ConcatAlphabet(chunks[1..]);
      Base64.AlphabetJoin(chunks[0], Concat(chunks[1..]));
    }
  }

  /** A fresh filter fed a stream without padding, cut anywhere, fails
      exactly when the stream's whole groups hold a stray byte. */
  lemma StreamChecks(chunks: seq<seq<byte>>)
    requires forall i :: 0 <= i < |chunks| ==> Base64.NoPadding(chunks[i])
    ensures Run(NewFilter(), chunks).err.Some? <==> !Base64.AllInAlphabet(WholePart(Concat(chunks)))
  {
    RunChecks(NewFilter(), chunks);
    assert Pending(NewFilter()) + Concat(chunks) == Concat(chunks);
  }

  /** A fresh filter decodes an alphabet-only stream as one call of the
      decoder on the whole stream would. */
  lemma StreamDecodes(chunks: seq<seq<byte>>)
    requires forall i :: 0 <= i < |chunks| ==> Base64.AllInAlphabet(chunks[i])
    ensures Run(NewFilter(), chunks).err.None?
    ensures Run(NewFilter(), chunks).output == Base64.Decode(Concat(chunks)).out
  {
    RunDecodes(NewFilter(), chunks);
    assert Pending(NewFilter()) + Concat(chunks) == Concat(chunks);
  }

  /** On alphabet-only pending characters and input from a settled state,
      the code as written and the corrected code behave the same: the
      miscount and the discarded error need padding or stray bytes to show. */
  lemma AgreesOnAlphabet(f: Filter, input: seq<byte>)
    requires Settled(f) && Base64.AllInAlphabet(Pending(f)) && Base64.AllInAlphabet(input)
    ensures WriteBytesAsWritten(f, input) == WriteBytes(f, input)
  {
    var fill := FillTupleBuffer(f, input).value;
    var used := fill.used;
    var (g, d1) := DecodeTupleBuffer(fill.f);
    if fill.f.tupleAvail >= TupleLen {
      var head := Pending(fill.f);
      var whole := fill.f.tupleAvail - fill.f.tupleAvail % TupleLen;
      assert f.tupleAvail > 0 && head == Pending(f) + input[..used];
      Base64.AlphabetPrefix(input, used);
      Base64.AlphabetJoin(Pending(f), input[..used]);
      Base64.AlphabetPrefix(head, whole);
      Base64.WholeGroupsLength(fill.f.tupleAvail);
      assert d1 == Base64.Decode(head[..whole]) && |head[..whole]| % 4 == 0;
      Base64.DecodeAlphabet(head[..whole]);
    }
    assert !d1.corrupt;
    if used < |input| && used >= |d1.out| {
      var rest := input[used..];
      Base64.AlphabetPrefix(input, used);
      PastBuffer(f, input);
      RestAgrees(g, d1.out, rest);
    }
  }

  /** A call that gets past the tuple buffer: both versions hand the rest of
      the input to their direct decode with the buffer empty. */
  lemma PastBuffer(f: Filter, input: seq<byte>)
    requires Settled(f)
    requires var fill := FillTupleBuffer(f, input).value;
      && fill.used < |input| && fill.used >= |DecodeTupleBuffer(fill.f).1.out|
      && !DecodeTupleBuffer(fill.f).1.corrupt
    ensures var fill := FillTupleBuffer(f, input).value;
      var (g, d1) := DecodeTupleBuffer(fill.f);
      && g.tupleAvail == 0
      && WriteBytesAsWritten(f, input) == RestAsWritten(g, d1.out, input[fill.used..])
      && WriteBytes(f, input) == Rest(g, d1.out, input[fill.used..])
  {
    var fill := FillTupleBuffer(f, input).value;
    assert FillTupleBuffer(f, input) == Ok(fill);
    FillDrains(f, input);
  }

  /** On alphabet input the two direct decodes agree. */
  lemma RestAgrees(g: Filter, d1: seq<byte>, rest: seq<byte>)
    requires Valid(g) && g.tupleAvail == 0 && Base64.AllInAlphabet(rest)
    ensures RestAsWritten(g, d1, rest) == Rest(g, d1, rest)
  {
    var whole := AlphabetCount(rest);
  }

  /** On alphabet input, `decodeLen2 * 8 / 6` counts exactly the whole groups. */
  lemma AlphabetCount(rest: seq<byte>) returns (whole: nat)
    requires Base64.AllInAlphabet(rest)
    ensures whole == |rest| - |rest| % TupleLen
    ensures |Base64.Decode(rest).out| * 8 / 6 == whole
    ensures Base64.Decode(rest).out == Base64.Decode(rest[..whole]).out
    ensures !Base64.Decode(rest[..whole]).corrupt
  {
    whole := |rest| - |rest| % TupleLen;
    Base64.WholeGroupsLength(|rest|);
    Base64.DecodeAlphabet(rest);
    Base64.DecodeWholeGroups(rest);
    Base64.AlphabetPrefix(rest, whole);
    Base64.DecodeAlphabet(rest[..whole]);
    assert 3 * (|rest| / 4) * 8 / 6 == whole;
  }

  /** Thirteen stray bytes on a fresh filter: the code as written reports no
      error but records thirteen buffered characters in a twelve-byte buffer,
      so the next call panics whatever it is given. */
  lemma GarbageThenPanic(next: seq<byte>)
    ensures var s := WriteBytesAsWritten(NewFilter(), seq(13, _ => 33));
      && s.err == None && s.output == [] && s.f.tupleAvail == 13
      && WriteBytesAsWritten(s.f, next).err == Some(SliceBounds)
  {
    var garbage: seq<byte> := seq(13, _ => 33);
    assert Base64.CharValue(garbage[0]) == -1;
    assert Base64.Decode(garbage) == Base64.Decoded([], true);
  }

  /** The corrected filter reports the same stray bytes and stays settled. */
  lemma GarbageRefused()
    ensures var s := WriteBytes(NewFilter(), seq(13, _ => 33));
      s.err == Some(CorruptInput) && Settled(s.f)
  {
    var garbage: seq<byte> := seq(13, _ => 33);
    assert garbage[..12][0] == 33;
    assert Base64.Decode(garbage[..12]).corrupt;
  }

  /** "!" then "!!!": the code as written stashes the stray byte, and the
      second call completes a corrupt group inside the tuple buffer, whose
      decode error it discards: no error and no output. */
  lemma StrayTupleDropped()
    ensures var s1 := WriteBytesAsWritten(NewFilter(), [33]);
      && s1.err == None && s1.output == [] && Settled(s1.f) && Pending(s1.f) == [33]
      && var s2 := WriteBytesAsWritten(s1.f, [33, 33, 33]);
      s2.err == None && s2.output == []
  {
    StashesShort([33]);
    TupleErrorDropped(WriteBytesAsWritten(NewFilter(), [33]).f, [33, 33, 33]);
  }

  /** The corrected filter reports the same group as corrupt. */
  lemma StrayTupleReported()
    ensures var s1 := WriteBytes(NewFilter(), [33]);
      && s1.err == None && s1.output == [] && Settled(s1.f) && Pending(s1.f) == [33]
      && WriteBytes(s1.f, [33, 33, 33]).err == Some(CorruptInput)
  {
    KeepsShort([33]);
    TupleErrorReported(WriteBytes(NewFilter(), [33]).f, [33, 33, 33]);
    assert Base64.Decode([33, 33, 33, 33]).corrupt;
  }

  /** "QQ" then "==QUJD": the code as written stashes the short group; the
      second call fits into the tuple buffer, whose decode of "QQ==QUJD"
      gives "A" and an error (data after padding) that is discarded, so
      "ABC" is lost without a report. */
  lemma PaddedTupleDropped()
    ensures var s1 := WriteBytesAsWritten(NewFilter(), [81, 81]);
      && s1.err == None && s1.output == [] && Settled(s1.f) && Pending(s1.f) == [81, 81]
      && var s2 := WriteBytesAsWritten(s1.f, [61, 61, 81, 85, 74, 68]);
      s2.err == None && s2.output == [65]
  {
    StashesShort([81, 81]);
    TupleErrorDropped(WriteBytesAsWritten(NewFilter(), [81, 81]).f, [61, 61, 81, 85, 74, 68]);
    DataAfterPadding();
  }

  /** The corrected filter reports the same call as corrupt. */
  lemma PaddedTupleReported()
    ensures var s1 := WriteBytes(NewFilter(), [81, 81]);
      && s1.err == None && s1.output == [] && Settled(s1.f) && Pending(s1.f) == [81, 81]
      && WriteBytes(s1.f, [61, 61, 81, 85, 74, 68]).err == Some(CorruptInput)
  {
    KeepsShort([81, 81]);
    TupleErrorReported(WriteBytes(NewFilter(), [81, 81]).f, [61, 61, 81, 85, 74, 68]);
    DataAfterPadding();
  }

  /** "QQ==QUJD" decodes to "A" and is corrupt: data follows the padding. */
  lemma DataAfterPadding()
    ensures Base64.Decode([81, 81, 61, 61, 81, 85, 74, 68]) == Base64.Decoded([65], true)
  {
    var t: seq<byte> := [81, 81, 61, 61, 81, 85, 74, 68];
    assert t[..4] == [81, 81, 61, 61];
  }

  /** A fresh filter as written stashes a group shorter than four. */
  lemma StashesShort(x: seq<byte>)
    requires 0 < |x| < TupleLen
    ensures var s := WriteBytesAsWritten(NewFilter(), x);
      s.err == None && s.output == [] && Settled(s.f) && Pending(s.f) == x
  {
    assert x[0..] == x;
  }

  /** The corrected fresh filter keeps a group shorter than four pending. */
  lemma KeepsShort(x: seq<byte>)
    requires 0 < |x| < TupleLen
    ensures var s := WriteBytes(NewFilter(), x);
      s.err == None && s.output == [] && Settled(s.f) && Pending(s.f) == x
  {
    FreshIsRest(NewFilter(), x);
    assert WholePart(x) == [] && x[0..] == x;
    RestPending(NewFilter(), [], x);
  }

  /** A call that fits into a non-empty tuple buffer and completes whole
      groups there: the code as written hands out their decode with no
      error, whatever the decoder reported. */
  lemma TupleErrorDropped(f: Filter, input: seq<byte>)
    requires Settled(f) && f.tupleAvail > 0 && f.tupleAvail + |input| <= TupleBuffSize
    requires f.tupleAvail + |input| >= TupleLen
    ensures var all := Pending(f) + input;
      var s := WriteBytesAsWritten(f, input);
      s.err == None && s.output == Base64.Decode(all[..|all| - |all| % TupleLen]).out
  {
    assert input[..|input|] == input;
  }

  /** The same call on the corrected filter reports the decoder's error. */
  lemma TupleErrorReported(f: Filter, input: seq<byte>)
    requires Settled(f) && f.tupleAvail > 0 && f.tupleAvail + |input| <= TupleBuffSize
    requires f.tupleAvail + |input| >= TupleLen
    ensures var all := Pending(f) + input;
      Base64.Decode(all[..|all| - |all| % TupleLen]).corrupt ==> WriteBytes(f, input).err == Some(CorruptInput)
  {
    assert input[..|input|] == input;
  }

  /** "QQ==" then "QUJD": the code as written counts the padded group as one
      character consumed, leaves "Q==" buffered, and the buffered padding
      swallows the next group, so the bytes "ABC" never come out. */
  lemma PaddingStashed()
    ensures var s1 := WriteBytesAsWritten(NewFilter(), [81, 81, 61, 61]);
      && s1.err == None && s1.output == [65] && Pending(s1.f) == [81, 61, 61]
      && var s2 := WriteBytesAsWritten(s1.f, [81, 85, 74, 68]);
      s2.err == None && s2.output == []
  {
    StashesPadding();
    PaddingSwallows(WriteBytesAsWritten(NewFilter(), [81, 81, 61, 61]).f);
  }

  /** The first write of `PaddingStashed`. */
  lemma StashesPadding()
    ensures var s1 := WriteBytesAsWritten(NewFilter(), [81, 81, 61, 61]);
      && s1.err == None && s1.output == [65] && Settled(s1.f) && Pending(s1.f) == [81, 61, 61]
  {
    var qq: seq<byte> := [81, 81, 61, 61];
    assert Base64.Decode(qq) == Base64.Decoded([65], false);
    assert qq[1..] == [81, 61, 61];
  }

  /** The second write of `PaddingStashed`, from any filter holding the
      stashed padding. */
  lemma PaddingSwallows(f: Filter)
    requires Settled(f) && Pending(f) == [81, 61, 61]
    ensures var s2 := WriteBytesAsWritten(f, [81, 85, 74, 68]);
      s2.err == None && s2.output == []
  {
    var fill := FillTupleBuffer(f, [81, 85, 74, 68]).value;
    assert Pending(fill.f) == [81, 61, 61, 81, 85, 74, 68];
    assert Pending(fill.f)[..4] == [81, 61, 61, 81];
    assert Base64.Decode([81, 61, 61, 81]) == Base64.Decoded([], true);
  }

  /** The corrected filter decodes the same two writes to "A" and "ABC". */
  lemma PaddingConsumed()
    ensures var s1 := WriteBytes(NewFilter(), [81, 81, 61, 61]);
      && s1.err == None && s1.output == [65] && Pending(s1.f) == []
      && var s2 := WriteBytes(s1.f, [81, 85, 74, 68]);
      s2.err == None && s2.output == [65, 66, 67]
  {
    ConsumesPadding();
    DecodesAfterPadding(WriteBytes(NewFilter(), [81, 81, 61, 61]).f);
  }

  /** The first write of `PaddingConsumed`. */
  lemma ConsumesPadding()
    ensures var s1 := WriteBytes(NewFilter(), [81, 81, 61, 61]);
      && s1.err == None && s1.output == [65] && Settled(s1.f) && s1.f.tupleAvail == 0
  {
    var qq: seq<byte> := [81, 81, 61, 61];
    assert qq[0..] == qq && qq[..4] == qq;
    assert Base64.Decode(qq) == Base64.Decoded([65], false);
  }

  /** The second write of `PaddingConsumed`, from any filter with nothing
      pending. */
  lemma DecodesAfterPadding(f: Filter)
    requires Settled(f) && f.tupleAvail == 0
    ensures var s2 := WriteBytes(f, [81, 85, 74, 68]);
      s2.err == None && s2.output == [65, 66, 67]
  {
    var abc: seq<byte> := [81, 85, 74, 68];
    FreshIsRest(f, abc);
    assert WholePart(abc) == abc;
    assert abc[4..] == [];
    assert Base64.Decode(abc) == Base64.Decoded([65, 66, 67], false);
  }

  lemma Regroup<T>(p: seq<T>, c: seq<T>, w: seq<T>, q: seq<T>, t: seq<T>)
    requires p + c == w + q
    ensures p + (c + t) == w + (q + t)
  {
    calc {
      p + (c + t);
      (p + c) + t;
      (w + q) + t;
      w + (q + t);
    }
  }
}
