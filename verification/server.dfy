/** The filter chain the server installs on each connection, and the
    encoding its test client applies. The server decodes base64, unmasks
    each byte with XOR 0xff and extracts frames; the client masks each byte
    with 0xff and base64-encodes the result. */
module Server {
  import opened Bytes
  import opened Outcomes
  import Frame
  import Base64
  import Base64Filter
  import XorFilter
  import InputFilter
  import InputPipeline

  const Mask: seq<byte> := [0xff]

  /** The three filters, appended in order, with the message channel set. */
  function ServerPipeline(c: InputFilter.Channel): (p: InputPipeline.Pipeline)
    ensures p.mc == Some(c) && InputPipeline.Bound(p) && InputPipeline.AllValid(p.stages)
  {
    var p0 := InputPipeline.NewPipeline();
    var p1 := InputPipeline.Append(p0, InputPipeline.Base64Stage(Base64Filter.NewFilter()));
    var p2 := InputPipeline.Append(p1, InputPipeline.XorStage(XorFilter.NewFilter(Mask)));
    var p3 := InputPipeline.Append(p2, InputPipeline.FrameStage(InputFilter.NewFilter()));
    InputPipeline.SetRawMessageReceiver(p3, Some(c))
  }

  /** What the test client sends for `plain`: each byte XORed with 0xff,
      then the standard base64 encoding. */
  function ClientBytes(plain: seq<byte>): seq<byte> {
    Base64.Encode(XorFilter.WriteBytes(XorFilter.NewFilter(Mask), plain).value.output)
  }

  /** The stages of the server pipeline, one by one. */
  lemma ServerStages(c: InputFilter.Channel)
    ensures ServerPipeline(c).stages == [
      InputPipeline.Base64Stage(Base64Filter.NewFilter()),
      InputPipeline.XorStage(XorFilter.NewFilter(Mask)),
      InputPipeline.FrameStage(InputFilter.NewFilter().(receiver := Some(c)))]
  {
  }

  /** A base64 filter with nothing pending turns the client's encoding
      back into the masked bytes in one call. */
  lemma Base64Decodes(f: Base64Filter.Filter, x: seq<byte>)
    requires Base64Filter.Settled(f) && f.tupleAvail == 0 && |x| > 0
    ensures var st := Base64Filter.WriteBytes(f, Base64.Encode(x));
      st.err.None? && st.output == x
  {
    var e := Base64.Encode(x);
    Base64Filter.FreshIsRest(f, e);
    assert Base64Filter.WholePart(e) == e;
    Base64.EncodeDecode(x);
  }

  /** End to end, for one copy of the client's encoding arriving in a
      single call: whatever well-formed frames the client encodes, the
      server's pipeline runs all three filters on them without error and
      the frame extractor sends exactly those messages, in order. */
  lemma ServesClientFrames(ms: seq<Frame.Message>, c: InputFilter.Channel)
    requires |ms| > 0 && forall i :: 0 <= i < |ms| ==> Frame.WellFormed(ms[i])
    ensures var (_, r) := InputPipeline.WriteBytes(ServerPipeline(c), ClientBytes(InputFilter.Frames(ms)));
      r.err.None? && r.ran == 3 && r.output == [] && r.sent == InputFilter.AllReceived(ms)
  {
    ServerStages(c);
    ThreeStages(Base64Filter.NewFilter(), XorFilter.NewFilter(Mask), InputFilter.NewFilter().(receiver := Some(c)), ms);
  }

  /** The same for any states the three filters may start in: nothing
      pending in the base64 filter, any position in a non-empty mask that
      the client also starts from, an idle extractor with a channel. */
  lemma ThreeStages(b: Base64Filter.Filter, xf: XorFilter.Filter, e: InputFilter.Filter, ms: seq<Frame.Message>)
    requires Base64Filter.Settled(b) && b.tupleAvail == 0
    requires XorFilter.Valid(xf) && |xf.mask| > 0
    requires InputFilter.Idle(e) && e.receiver.Some?
    requires |ms| > 0 && forall i :: 0 <= i < |ms| ==> Frame.WellFormed(ms[i])
    ensures var plain := InputFilter.Frames(ms);
      var input := Base64.Encode(XorFilter.WriteBytes(xf, plain).value.output);
      var r := InputPipeline.Chain(InputPipeline.RunStage,
        [InputPipeline.Base64Stage(b), InputPipeline.XorStage(xf), InputPipeline.FrameStage(e)], input);
      r.err.None? && r.ran == 3 && r.output == [] && r.sent == InputFilter.AllReceived(ms)
  {
    var plain := InputFilter.Frames(ms);
    assert |plain| > 0 by {
      assert plain == Frame.GenBytes(ms[0]) + InputFilter.Frames(ms[1..]);
    }
    var x := XorFilter.WriteBytes(xf, plain).value.output;
    var input := Base64.Encode(x);
    InputFilter.ExtractsFrames(e, ms);
    XorFilter.Involution(xf, plain);
    Base64Decodes(b, x);
    InputPipeline.RunsBase64(b, input);
    InputPipeline.RunsXor(xf, x);
    InputPipeline.RunsFrame(e, plain);
    InputPipeline.ChainThree(InputPipeline.RunStage,
      InputPipeline.Base64Stage(b), InputPipeline.XorStage(xf), InputPipeline.FrameStage(e), input);
  }

  /** Two copies of an encoding that ends in padding, arriving in one call:
      the data after the padding makes the base64 stage report corruption,
      so the chain stops there and nothing is sent. */
  lemma RepeatedCopyRefused(plain: seq<byte>, c: InputFilter.Channel)
    requires |plain| % 3 != 0
    ensures var (_, r) := InputPipeline.WriteBytes(ServerPipeline(c), ClientBytes(plain) + ClientBytes(plain));
      r.err == Some(CorruptInput) && r.ran == 1 && r.sent == []
  {
    var e := ClientBytes(plain);
    var b := Base64Filter.NewFilter();
    RepeatedCopyCorrupt(XorFilter.WriteBytes(XorFilter.NewFilter(Mask), plain).value.output);
    InputPipeline.RunsBase64(b, e + e);
    ServerStages(c);
    var o := InputPipeline.RunStage(InputPipeline.Base64Stage(b), e + e);
    assert o.err == Some(CorruptInput) && o.sent == [];
  }

  /** The base64 filter's part of `RepeatedCopyRefused`. */
  lemma RepeatedCopyCorrupt(x: seq<byte>)
    requires |x| % 3 != 0
    ensures Base64Filter.WriteBytes(Base64Filter.NewFilter(), Base64.Encode(x) + Base64.Encode(x)).err == Some(CorruptInput)
  {
    var e := Base64.Encode(x);
    Base64.PaddedThenMore(x, e);
    Base64Filter.FreshIsRest(Base64Filter.NewFilter(), e + e);
    assert Base64Filter.WholePart(e) == e;
    Base64Filter.WholeShift(e, e);
  }
}
