/** `BasicInputPipeline`: the filters of a connection, applied in the order
    they were appended. Each filter's output is the next one's input; the
    chain stops at the first error or the first empty output, and returns
    the output and error of the last filter it ran. Filters that send
    messages get the pipeline's channel when they are appended and whenever
    the channel is set.

    The chain is written over any filter type `F` and its `WriteBytes`
    (`run`), as the source writes it over the `Filter` interface; `Stage`
    and `RunStage` are the program's three filters. */
module InputPipeline {
  import opened Bytes
  import opened Outcomes
  import Frame
  import XorFilter
  import Base64Filter
  import InputFilter

  /** One filter's `WriteBytes`: its new state, its output bytes, the
      messages it sent and its error. */
  datatype Output<F> = Output(s: F, bytes: seq<byte>, sent: seq<Frame.Message>, err: Option<Error>)

  /** A stage stops the chain when it fails or outputs nothing. */
  predicate Stops<F>(o: Output<F>) {
    o.err.Some? || |o.bytes| == 0
  }

  /** The result of a pipeline call: the stages afterwards, the output and
      error returned, every message sent on the way, and how many stages ran. */
  datatype Ran<F> = Ran(stages: seq<F>, output: seq<byte>, sent: seq<Frame.Message>, err: Option<Error>, ran: nat)

  /** The input stage `k` sees when every stage before it lets its output
      through: a reference for what `Chain` feeds each stage. */
  function InputOf<F>(run: (F, seq<byte>) -> Output<F>, stages: seq<F>, input: seq<byte>, k: nat): seq<byte>
    requires k <= |stages|
  {
    if k == 0 then input else run(stages[k - 1], InputOf(run, stages, input, k - 1)).bytes
  }

  /** The loop of `WriteBytes`: the stages run in order, each on the output
      of the one before, until one stops the chain or none is left. The
      stages that ran are a prefix; the others are untouched. */
  function Chain<F>(run: (F, seq<byte>) -> Output<F>, stages: seq<F>, input: seq<byte>): (r: Ran<F>)
    ensures |r.stages| == |stages| && r.ran <= |stages|
    ensures r.stages[r.ran..] == stages[r.ran..]
    ensures |stages| == 0 ==> r == Ran([], [], [], None, 0)
    ensures |stages| > 0 ==> r.ran > 0
    decreases |stages|
  {
    if |stages| == 0 then Ran([], [], [], None, 0)
    else
      var o := run(stages[0], input);
      if Stops(o) || |stages| == 1 then Ran([o.s] + stages[1..], o.bytes, o.sent, o.err, 1)
      else
        var rest := Chain(run, stages[1..], o.bytes);
        Ran([o.s] + rest.stages, rest.output, o.sent + rest.sent, rest.err, 1 + rest.ran)
  }

  /** What the chain did, stage by stage: each stage that ran was replaced
      by its new state after running on the output of the one before; every
      stage before the last one run let non-empty output through without
      error; the chain ended early only because the last stage run stopped
      it; and the output and error returned are that last stage's. */
  lemma ChainMeaning<F>(run: (F, seq<byte>) -> Output<F>, stages: seq<F>, input: seq<byte>)
    requires |stages| > 0
    ensures var r := Chain(run, stages, input);
      var o := run(stages[r.ran - 1], InputOf(run, stages, input, r.ran - 1));
      && r.output == o.bytes && r.err == o.err
      && (r.ran < |stages| ==> Stops(o))
      && (forall k :: 0 <= k < r.ran - 1 ==> !Stops(run(stages[k], InputOf(run, stages, input, k))))
      && (forall k :: 0 <= k < r.ran ==> r.stages[k] == run(stages[k], InputOf(run, stages, input, k)).s)
  {
    ChainLast(run, stages, input);
    ChainPasses(run, stages, input);
    ChainStates(run, stages, input);
  }

  /** The output and error returned are those of the last stage run, which
      stopped the chain if any stage was left. */
  lemma {:induction false} ChainLast<F>(run: (F, seq<byte>) -> Output<F>, stages: seq<F>, input: seq<byte>)
    requires |stages| > 0
    ensures var r := Chain(run, stages, input);
      var o := run(stages[r.ran - 1], InputOf(run, stages, input, r.ran - 1));
      && r.output == o.bytes && r.err == o.err
      && (r.ran < |stages| ==> Stops(o))
    decreases |stages|
  {
    var o := run(stages[0], input);
    if !Stops(o) && |stages| > 1 {
      var rest := Chain(run, stages[1..], o.bytes);
      ChainLast(run, stages[1..], o.bytes);
      InputsShift(run, stages, input, rest.ran - 1);
      assert stages[1..][rest.ran - 1] == stages[rest.ran];
    }
  }

  /** Every stage before the last one run let output through. */
  lemma {:induction false} ChainPasses<F>(run: (F, seq<byte>) -> Output<F>, stages: seq<F>, input: seq<byte>)
    requires |stages| > 0
    ensures var r := Chain(run, stages, input);
      forall k :: 0 <= k < r.ran - 1 ==> !Stops(run(stages[k], InputOf(run, stages, input, k)))
    decreases |stages|
  {
    var r := Chain(run, stages, input);
    var o := run(stages[0], input);
    if !Stops(o) && |stages| > 1 {
      var rest := Chain(run, stages[1..], o.bytes);
      ChainPasses(run, stages[1..], o.bytes);
      InputsShift(run, stages, input, rest.ran - 1);
      forall k | 1 <= k < r.ran - 1
        ensures !Stops(run(stages[k], InputOf(run, stages, input, k)))
      {
        assert stages[1..][k - 1] == stages[k];
      }
    }
  }

  /** Every stage that ran holds its state after running on its input. */
  lemma {:induction false} ChainStates<F>(run: (F, seq<byte>) -> Output<F>, stages: seq<F>, input: seq<byte>)
    requires |stages| > 0
    ensures var r := Chain(run, stages, input);
      forall k :: 0 <= k < r.ran ==> r.stages[k] == run(stages[k], InputOf(run, stages, input, k)).s
    decreases |stages|
  {
    var r := Chain(run, stages, input);
    var o := run(stages[0], input);
    if !Stops(o) && |stages| > 1 {
      var rest := Chain(run, stages[1..], o.bytes);
      ChainStates(run, stages[1..], o.bytes);
      InputsShift(run, stages, input, rest.ran - 1);
      forall k | 1 <= k < r.ran
        ensures r.stages[k] == run(stages[k], InputOf(run, stages, input, k)).s
      {
        assert stages[1..][k - 1] == stages[k];
        assert r.stages[k] == rest.stages[k - 1];
      }
    }
  }

  /** The inputs of the stages after the first are those of the shorter
      chain that starts from the first stage's output. */
  lemma {:induction false} InputsShift<F>(run: (F, seq<byte>) -> Output<F>, stages: seq<F>, input: seq<byte>, k: nat)
    requires 0 < |stages| && k < |stages|
    ensures forall j :: 0 <= j <= k ==>
      InputOf(run, stages, input, j + 1) == InputOf(run, stages[1..], run(stages[0], input).bytes, j)
    decreases k
  {
    if k > 0 {
      InputsShift(run, stages, input, k - 1);
      assert stages[1..][k - 1] == stages[k];
    }
  }

  /** Running two chains one after the other is running their
      concatenation: the second part runs exactly when the first ran to its
      end with non-empty output and no error. */
  lemma {:induction false} ChainAppend<F>(run: (F, seq<byte>) -> Output<F>, a: seq<F>, b: seq<F>, input: seq<byte>)
    requires |a| > 0 && |b| > 0
    ensures Chain(run, a + b, input) == Joined(Chain(run, a, input), |a|, b, run)
    decreases |a|
  {
    var o := run(a[0], input);
    assert (a + b)[0] == a[0];
    if |a| == 1 {
      assert (a + b)[1..] == b;
      assert [o.s] + a[1..] == [o.s];
    } else {
      assert (a + b)[1..] == a[1..] + b;
      if !Stops(o) {
        ChainAppend(run, a[1..], b, o.bytes);
        JoinedCons(run, o, Chain(run, a[1..], o.bytes), |a| - 1, b);
      }
    }
  }

  /** What the concatenation returns, given what its first part returned. */
  function Joined<F>(ra: Ran<F>, n: nat, b: seq<F>, run: (F, seq<byte>) -> Output<F>): Ran<F>
    requires |b| > 0
  {
    if ra.ran == n && ra.err.None? && |ra.output| > 0 then
      var rb := Chain(run, b, ra.output);
      Ran(ra.stages + rb.stages, rb.output, ra.sent + rb.sent, rb.err, n + rb.ran)
    else Ran(ra.stages + b, ra.output, ra.sent, ra.err, ra.ran)
  }

  /** Putting one stage's result in front commutes with joining. */
  lemma JoinedCons<F>(run: (F, seq<byte>) -> Output<F>, o: Output<F>, ra: Ran<F>, n: nat, b: seq<F>)
    requires |b| > 0
    ensures var j := Joined(ra, n, b, run);
      Joined(Ran([o.s] + ra.stages, ra.output, o.sent + ra.sent, ra.err, 1 + ra.ran), n + 1, b, run)
        == Ran([o.s] + j.stages, j.output, o.sent + j.sent, j.err, 1 + j.ran)
  {
    if ra.ran == n && ra.err.None? && |ra.output| > 0 {
      var rb := Chain(run, b, ra.output);
      assert [o.s] + (ra.stages + rb.stages) == ([o.s] + ra.stages) + rb.stages;
      assert o.sent + (ra.sent + rb.sent) == (o.sent + ra.sent) + rb.sent;
    } else {
      assert [o.s] + (ra.stages + b) == ([o.s] + ra.stages) + b;
    }
  }

  /** Three stages where the first two let their output through: the
      chain runs all three, returns the third one's output and error, and
      collects every stage's messages. */
  lemma ChainThree<F>(run: (F, seq<byte>) -> Output<F>, s0: F, s1: F, s2: F, input: seq<byte>)
    requires !Stops(run(s0, input)) && !Stops(run(s1, run(s0, input).bytes))
    ensures var o0 := run(s0, input);
      var o1 := run(s1, o0.bytes);
      var o2 := run(s2, o1.bytes);
      var r := Chain(run, [s0, s1, s2], input);
      && r.ran == 3 && r.output == o2.bytes && r.err == o2.err
      && r.sent == o0.sent + o1.sent + o2.sent
  {
    var o0 := run(s0, input);
    var o1 := run(s1, o0.bytes);
    assert [s0, s1, s2][1..] == [s1, s2] && [s1, s2][1..] == [s2];
    var o2 := run(s2, o1.bytes);
    assert [s2][1..] == [];
    var r2 := Chain(run, [s2], o1.bytes);
    assert r2 == Ran([o2.s], o2.bytes, o2.sent, o2.err, 1);
    var r1 := Chain(run, [s1, s2], o0.bytes);
    assert r1 == Ran([o1.s] + r2.stages, o2.bytes, o1.sent + o2.sent, o2.err, 2);
  }

  /** The three filters of the program, each with its own state. Only the
      frame extractor sends messages. */
  datatype Stage =
    | XorStage(x: XorFilter.Filter)
    | Base64Stage(b: Base64Filter.Filter)
    | FrameStage(e: InputFilter.Filter)

  predicate StageValid(s: Stage) {
    match s
    case XorStage(x) => XorFilter.Valid(x)
    case Base64Stage(b) => Base64Filter.Valid(b)
    case FrameStage(e) => InputFilter.Valid(e)
  }

  predicate AllValid(stages: seq<Stage>) {
    forall i :: 0 <= i < |stages| ==> StageValid(stages[i])
  }

  /** A filter's `WriteBytes`. A panic of the XOR filter (an empty mask) is
      returned as an error. A state no constructor makes (which every call
      keeps out) is refused as a slice panic, so that the function is
      defined on every stage. */
  function RunStage(s: Stage, input: seq<byte>): (o: Output<Stage>)
    ensures StageValid(s) ==> StageValid(o.s)
    ensures o.s.XorStage? == s.XorStage? && o.s.FrameStage? == s.FrameStage?
    ensures o.s.FrameStage? ==> o.bytes == [] && o.s.e.receiver == s.e.receiver
    ensures !o.s.FrameStage? ==> o.sent == []
  {
    if !StageValid(s) then Output(s, [], [], Some(SliceBounds))
    else match s
      case XorStage(x) =>
        (match XorFilter.WriteBytes(x, input)
         case Ok(st) => Output(XorStage(st.f), st.output, [], None)
         case Err(e) => Output(s, [], [], Some(e)))
      case Base64Stage(b) =>
        var st := Base64Filter.WriteBytes(b, input);
        Output(Base64Stage(st.f), st.output, [], st.err)
      case FrameStage(e) =>
        var st := InputFilter.WriteBytes(e, input);
        Output(FrameStage(st.f), [], st.sent, st.err)
  }

  /** `RunStage` on a valid stage of each kind is that filter's `WriteBytes`. */
  lemma RunsXor(x: XorFilter.Filter, input: seq<byte>)
    requires XorFilter.Valid(x) && |x.mask| > 0
    ensures var st := XorFilter.WriteBytes(x, input).value;
      RunStage(XorStage(x), input) == Output(XorStage(st.f), st.output, [], None)
  {
  }

  lemma RunsBase64(b: Base64Filter.Filter, input: seq<byte>)
    requires Base64Filter.Valid(b)
    ensures var st := Base64Filter.WriteBytes(b, input);
      RunStage(Base64Stage(b), input) == Output(Base64Stage(st.f), st.output, [], st.err)
  {
  }

  lemma RunsFrame(e: InputFilter.Filter, input: seq<byte>)
    requires InputFilter.Valid(e)
    ensures var st := InputFilter.WriteBytes(e, input);
      RunStage(FrameStage(e), input) == Output(FrameStage(st.f), [], st.sent, st.err)
  {
  }

  /** The pipeline: its stages and the channel handed to message senders
      (`None` while no channel is set). */
  datatype Pipeline = Pipeline(stages: seq<Stage>, mc: Option<InputFilter.Channel>)

  function NewPipeline(): (p: Pipeline)
    ensures p.stages == [] && p.mc.None? && Bound(p)
  {
    Pipeline([], None)
  }

  /** Every message sender holds the pipeline's channel. */
  predicate Bound(p: Pipeline) {
    forall i :: 0 <= i < |p.stages| && p.stages[i].FrameStage? ==> p.stages[i].e.receiver == p.mc
  }

  /** `WriteBytes`: the chain over the pipeline's stages. The stages stay
      valid and every sender keeps the pipeline's channel. */
  function WriteBytes(p: Pipeline, input: seq<byte>): (r: (Pipeline, Ran<Stage>))
    ensures r.0 == Pipeline(r.1.stages, p.mc) && r.1 == Chain(RunStage, p.stages, input)
    ensures AllValid(p.stages) ==> AllValid(r.0.stages)
    ensures Bound(p) ==> Bound(r.0)
  {
    var r := Chain(RunStage, p.stages, input);
    StagesKept(p.stages, input);
    (Pipeline(r.stages, p.mc), r)
  }

  /** A call keeps every stage valid, of its kind, and a sender with its channel. */
  lemma StagesKept(stages: seq<Stage>, input: seq<byte>)
    ensures var r := Chain(RunStage, stages, input);
      forall i :: 0 <= i < |stages| ==>
        && (StageValid(stages[i]) ==> StageValid(r.stages[i]))
        && r.stages[i].FrameStage? == stages[i].FrameStage?
        && (stages[i].FrameStage? ==> r.stages[i].e.receiver == stages[i].e.receiver)
  {
    forall i | 0 <= i < |stages| {
      StageKept(stages, input, i);
    }
  }

  lemma StageKept(stages: seq<Stage>, input: seq<byte>, i: nat)
    requires i < |stages|
    ensures var r := Chain(RunStage, stages, input);
      && (StageValid(stages[i]) ==> StageValid(r.stages[i]))
      && r.stages[i].FrameStage? == stages[i].FrameStage?
      && (stages[i].FrameStage? ==> r.stages[i].e.receiver == stages[i].e.receiver)
  {
    var x, ran := ChainStage(RunStage, stages, input, i);
    if ran {
      var o := RunStage(stages[i], x);
    }
  }

  /** Each stage after a call is either untouched or the stage's own state
      after running on some input. */
  lemma ChainStage<F>(run: (F, seq<byte>) -> Output<F>, stages: seq<F>, input: seq<byte>, i: nat)
    returns (x: seq<byte>, ran: bool)
    requires i < |stages|
    ensures ran ==> Chain(run, stages, input).stages[i] == run(stages[i], x).s
    ensures !ran ==> Chain(run, stages, input).stages[i] == stages[i]
  {
    var r := Chain(run, stages, input);
    ran := i < r.ran;
    x := [];
    if ran {
      ChainStates(run, stages, input);
      x := InputOf(run, stages, input, i);
    } else {
      assert r.stages[i] == r.stages[r.ran..][i - r.ran] == stages[r.ran..][i - r.ran];
    }
  }

  /** `setupFilter`: a message sender gets the pipeline's channel; any other
      filter is left as it is. */
  function Setup(s: Stage, mc: Option<InputFilter.Channel>): (r: Stage)
    ensures StageValid(s) ==> StageValid(r)
    ensures s.FrameStage? ==> r == FrameStage(InputFilter.SetReceiver(s.e, mc))
    ensures !s.FrameStage? ==> r == s
  {
    if s.FrameStage? then FrameStage(InputFilter.SetReceiver(s.e, mc)) else s
  }

  /** `Append`: the filter is set up with the current channel and goes last. */
  function Append(p: Pipeline, s: Stage): (r: Pipeline)
    ensures r.mc == p.mc && r.stages == p.stages + [Setup(s, p.mc)]
    ensures AllValid(p.stages) && StageValid(s) ==> AllValid(r.stages)
    ensures Bound(p) ==> Bound(r)
  {
    Pipeline(p.stages + [Setup(s, p.mc)], p.mc)
  }

  /** `SetRawMessageReceiver`: the channel is stored and pushed to every
      message sender; other filters are untouched. */
  function SetRawMessageReceiver(p: Pipeline, c: Option<InputFilter.Channel>): (r: Pipeline)
    ensures r.mc == c && Bound(r) && |r.stages| == |p.stages|
    ensures AllValid(p.stages) ==> AllValid(r.stages)
    ensures forall i :: 0 <= i < |p.stages| && !p.stages[i].FrameStage? ==> r.stages[i] == p.stages[i]
    ensures forall i :: 0 <= i < |p.stages| && p.stages[i].FrameStage? ==>
      r.stages[i] == FrameStage(p.stages[i].e.(receiver := c))
  {
    Pipeline(SetupAll(p.stages, c), c)
  }

  function SetupAll(stages: seq<Stage>, c: Option<InputFilter.Channel>): (r: seq<Stage>)
    ensures |r| == |stages| && forall i :: 0 <= i < |stages| ==> r[i] == Setup(stages[i], c)
    decreases |stages|
  {
    if |stages| == 0 then [] else [Setup(stages[0], c)] + SetupAll(stages[1..], c)
  }
}
