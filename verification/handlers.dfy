/** `BasicRawMessagePipeline`: an ordered list of message handlers. A
    message goes to each handler in turn until one reports an error; `Stop`
    reaches every handler. The handlers themselves are outside the model:
    `H` names a handler, and `respond` says what each handler's
    `WriteRawMessage` returns for the message at hand. */
module RawMessagePipeline {
  import opened Outcomes

  datatype Pipeline<H> = Pipeline(handlers: seq<H>)

  /** A new pipeline has no handlers. */
  function NewPipeline<H>(): (r: Pipeline<H>)
    ensures |r.handlers| == 0
  {
    Pipeline([])
  }

  /** `Append`: the new handler goes last, the others keep their order. */
  function Append<H>(p: Pipeline<H>, h: H): (r: Pipeline<H>)
    ensures |r.handlers| == |p.handlers| + 1 && r.handlers[|p.handlers|] == h
    ensures r.handlers[..|p.handlers|] == p.handlers
  {
    Pipeline(p.handlers + [h])
  }

  /** Who saw the message, in order, and the error returned. */
  datatype Delivery<H> = Delivery(seen: seq<H>, err: Option<Error>)

  /** `WriteRawMessage` over `handlers`: the handlers that see the message
      are a prefix of the list; the error is the first one reported, and it
      is reported by the last handler that saw the message. */
  function Deliver<H>(handlers: seq<H>, respond: H -> Option<Error>): (r: Delivery<H>)
    ensures |r.seen| <= |handlers| && r.seen == handlers[..|r.seen|]
    ensures forall i :: 0 <= i < |r.seen| - 1 ==> respond(r.seen[i]).None?
    ensures r.err.None? <==> forall i :: 0 <= i < |handlers| ==> respond(handlers[i]).None?
    ensures r.err.None? ==> r.seen == handlers
    ensures r.err.Some? ==> |r.seen| > 0 && r.err == respond(r.seen[|r.seen| - 1])
    decreases |handlers|
  {
    if |handlers| == 0 then Delivery([], None)
    else
      var e := respond(handlers[0]);
      if e.Some? then Delivery([handlers[0]], e)
      else
        var rest := Deliver(handlers[1..], respond);
        assert forall i :: 1 <= i < |handlers| ==> handlers[i] == handlers[1..][i - 1];
        Delivery([handlers[0]] + rest.seen, rest.err)
  }

  /** The pipeline's `WriteRawMessage`: the message goes to the pipeline's
      own handlers in their order, and it is accepted exactly when every one
      of them accepts it. */
  function WriteRawMessage<H>(p: Pipeline<H>, respond: H -> Option<Error>): (r: Delivery<H>)
    ensures |r.seen| <= |p.handlers| && r.seen == p.handlers[..|r.seen|]
    ensures r.err.None? <==> forall i :: 0 <= i < |p.handlers| ==> respond(p.handlers[i]).None?
    ensures r.err.Some? ==> |r.seen| > 0 && r.err == respond(r.seen[|r.seen| - 1])
  {
    Deliver(p.handlers, respond)
  }

  /** A handler appended last sees the message exactly when every earlier
      handler accepted it, and then its answer is the pipeline's; otherwise
      the delivery is what it was without it. */
  lemma {:induction false} AppendedHandler<H>(handlers: seq<H>, h: H, respond: H -> Option<Error>)
    ensures var before := Deliver(handlers, respond);
      Deliver(handlers + [h], respond)
        == if before.err.None? then Delivery(handlers + [h], respond(h)) else before
    decreases |handlers|
  {
    if |handlers| > 0 {
      var x, tail := handlers[0], handlers[1..];
      assert (handlers + [h])[0] == x && (handlers + [h])[1..] == tail + [h];
      if respond(x).None? {
        AppendedHandler(tail, h, respond);
        assert [x] + (tail + [h]) == handlers + [h];
      }
    } else {
      assert [] + [h] == [h];
    }
  }

  /** One `Stop` call, as the handler would log it. */
  datatype Stopped<H> = Stopped(handler: H)

  /** `Stop`: every handler is stopped, in order, whatever the others do. */
  function Stop<H>(p: Pipeline<H>): (r: seq<Stopped<H>>)
    ensures |r| == |p.handlers|
    ensures forall i :: 0 <= i < |r| ==> r[i] == Stopped(p.handlers[i])
  {
    StopAll(p.handlers)
  }

  function StopAll<H>(handlers: seq<H>): (r: seq<Stopped<H>>)
    ensures |r| == |handlers|
    ensures forall i :: 0 <= i < |r| ==> r[i] == Stopped(handlers[i])
    decreases |handlers|
  {
    if |handlers| == 0 then []
    else [Stopped(handlers[0])] + StopAll(handlers[1..])
  }
}
