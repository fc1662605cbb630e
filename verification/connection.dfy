/** `BasicConnection`: one client connection and its read loop. The loop
    reads into one half of a buffer twice the read size, hands the bytes
    read to a frame parser (calling it until every byte is taken, fetching a
    message after each call), and counts consecutive failed reads, giving up
    at a limit. Parser errors and fetched messages are only logged.

    The socket is a finite sequence of read results; the loop ends where the
    sequence ends (a real socket would block there). The read size and the
    failure limit are package constants whose values are not part of this
    model, so they are parameters. */
module Connection {
  import opened Bytes
  import opened Outcomes
  import Frame
  import Parser
  import InputFilter

  /** How a read ended: without error, at end of stream, or with another error. */
  datatype Status = ReadOk | Eof | Failed

  datatype ReadResult = ReadResult(bytes: seq<byte>, status: Status)

  /** `io.Reader` never returns more bytes than the window it is given. */
  predicate Fits(results: seq<ReadResult>, half: nat) {
    forall i :: 0 <= i < |results| ==> |results[i].bytes| <= half
  }

  /** The parser, in the states its constructor and its calls keep it in. */
  type ValidParser = p: Parser.Parser | Parser.Valid(p) witness Parser.NewParser()

  /** The connection: the channel set by `SetMessageChan` (`None` for nil)
      and its parser. */
  datatype Conn = Conn(mc: Option<InputFilter.Channel>, parser: ValidParser)

  function NewConnection(): (c: Conn)
    ensures c.mc.None? && Parser.Settled(c.parser) && c.parser == Parser.NewParser()
  {
    Conn(None, Parser.NewParser())
  }

  /** `SetMessageChan`: stores the channel and nothing else. */
  function SetMessageChan(c: Conn, mc: Option<InputFilter.Channel>): (r: Conn)
    ensures r.mc == mc && r.parser == c.parser
  {
    c.(mc := mc)
  }

  /** One step of the inner loop: a `WriteBytes` call and the
      `FetchMessage` after it. The loop is written over any parser `P` with
      such a step, `call`; `ParserCall` is the frame parser's. */
  datatype Call<P> = Call(p: P, writeLen: nat, got: Option<Frame.Message>, err: Option<Error>)

  /** Every call on bytes takes at least one of them, and no more than it is given. */
  ghost predicate Progress<P(!new)>(call: (P, seq<byte>) -> Call<P>) {
    forall p: P, b: seq<byte> :: |b| > 0 ==> 0 < call(p, b).writeLen <= |b|
  }

  function ParserCall(p: ValidParser, b: seq<byte>): (r: Call<ValidParser>)
    ensures |b| > 0 ==> 0 < r.writeLen <= |b|
  {
    var w := Parser.WriteBytes(p, b);
    var (q, got) := Parser.FetchMessage(w.p);
    Call(q, w.writeLen, got, w.err)
  }

  lemma ParserProgress()
    ensures Progress(ParserCall)
  {
  }

  /** The parser afterwards, the messages fetched and the errors logged. */
  datatype Parsed<P> = Parsed(p: P, fetched: seq<Frame.Message>, errors: seq<Error>)

  /** The inner loop, one call at a time: the parser is called on what is
      left of `b` and a message fetched, until nothing is left; errors are
      logged and do not stop it. */
  function DriveWith<P(!new)>(call: (P, seq<byte>) -> Call<P>, p: P, b: seq<byte>): Parsed<P>
    requires Progress(call)
    decreases |b|
  {
    if |b| == 0 then Parsed(p, [], [])
    else
      var c := call(p, b);
      var rest := DriveWith(call, c.p, b[c.writeLen..]);
      Parsed(rest.p, Parser.AsSeq(c.got) + rest.fetched, Parser.AsSeq(c.err) + rest.errors)
  }

  /** For the frame parser this is `Drive`. */
  lemma {:induction false} DriveWithParser(p: ValidParser, b: seq<byte>)
    ensures Progress(ParserCall)
    ensures var d := Parser.Drive(p, b);
      var e := DriveWith(ParserCall, p, b);
      e.p == d.p && e.fetched == d.fetched && e.errors == d.errors
    decreases |b|
  {
    ParserProgress();
    if |b| > 0 {
      var c := ParserCall(p, b);
      DriveWithParser(c.p, b[c.writeLen..]);
    }
  }

  /** Why the loop ended: too many failed reads in a row, end of stream with
      nothing read, or (in the model only) no read left. */
  datatype Stop = FailureLimit | Closed | ReadsExhausted

  /** What the loop did: the parser afterwards, the failure count, the
      messages fetched and the parse errors logged, how many reads it made,
      and why it stopped. */
  datatype Loop<P> = Loop(p: P, failure: nat, fetched: seq<Frame.Message>,
                          errors: seq<Error>, used: nat, stop: Stop)

  /** `r` after `used` reads that fetched `fetched` and logged `errors`. */
  function After<P>(fetched: seq<Frame.Message>, errors: seq<Error>, used: nat, r: Loop<P>): Loop<P> {
    r.(fetched := fetched + r.fetched, errors := errors + r.errors, used := used + r.used)
  }

  /** The loop, one read at a time: the reference the buffered method below
      is proved against. A read with an error other than end of stream is
      dropped and counted; an empty read at end of stream ends the loop; any
      other read is parsed in full, and a read without error clears the
      count. */
  function Run<P(!new)>(call: (P, seq<byte>) -> Call<P>, p: P, results: seq<ReadResult>, limit: nat, failure: nat): (r: Loop<P>)
    requires Progress(call)
    ensures r.used <= |results|
    ensures r.stop == ReadsExhausted ==> r.used == |results|
    decreases |results|
  {
    if failure >= limit then Loop(p, failure, [], [], 0, FailureLimit)
    else if |results| == 0 then Loop(p, failure, [], [], 0, ReadsExhausted)
    else
      var rd := results[0];
      if rd.status == Failed then After([], [], 1, Run(call, p, results[1..], limit, failure + 1))
      else if rd.status == Eof && |rd.bytes| == 0 then Loop(p, failure, [], [], 1, Closed)
      else
        var d := DriveWith(call, p, rd.bytes);
        After(d.fetched, d.errors, 1, Run(call, d.p, results[1..], limit, if rd.status == ReadOk then 0 else failure))
  }

  /** The byte chunks the loop hands to the parser: every read it makes,
      except failed ones, in order. */
  function Fed(results: seq<ReadResult>, limit: nat, failure: nat): (r: seq<seq<byte>>)
    ensures |r| <= |results|
    decreases |results|
  {
    if failure >= limit || |results| == 0 then []
    else
      var rd := results[0];
      if rd.status == Failed then Fed(results[1..], limit, failure + 1)
      else if rd.status == Eof && |rd.bytes| == 0 then []
      else [rd.bytes] + Fed(results[1..], limit, if rd.status == ReadOk then 0 else failure)
  }

  /** `loop`, with its double buffer. Before every read the offset is below
      the read size, so the read window `[offset, offset + half)` lies inside
      the buffer, and the bytes read are parsed from there. */
  method ReadLoop<P(!new)>(call: (P, seq<byte>) -> Call<P>, p0: P, results: seq<ReadResult>, half: nat, limit: nat)
    returns (r: Loop<P>)
    requires Progress(call) && half > 0 && Fits(results, half)
    ensures r == Run(call, p0, results, limit, 0)
  {
    ghost var whole := Run(call, p0, results, limit, 0);
    var rest := results;
    var p := p0;
    var failure: nat := 0;
    var buf := Zeros(half * 2);
    var offset: nat := 0;
    var fetched: seq<Frame.Message> := [];
    var errors: seq<Error> := [];
    var i := 0;
    assert whole == After([], [], 0, whole);
    while |rest| > 0
      invariant i + |rest| == |results| && Fits(rest, half)
      invariant |buf| == half * 2 && offset < half
      invariant whole == After(fetched, errors, i, Run(call, p, rest, limit, failure))
      decreases |rest|
    {
      if failure >= limit {
        return After(fetched, errors, i, Loop(p, failure, [], [], 0, FailureLimit));
      }
      var rd := rest[0];
      var avail := |rd.bytes|;
      i := i + 1;
      if rd.status == Failed {
        FailedStep(call, whole, fetched, errors, i - 1, p, rest, limit, failure);
        failure := failure + 1;
        rest := rest[1..];
        continue;
      } else if rd.status == Eof && avail == 0 {
        ClosedStep(call, whole, fetched, errors, i - 1, p, rest, limit, failure);
        return After(fetched, errors, i, Loop(p, failure, [], [], 0, Closed));
      }
      var df, de;
      var p1;
      buf, offset, p1, df, de := ReadAndParse(call, p, buf, offset, half, rd.bytes);
      var f: nat := if rd.status == ReadOk then 0 else failure;
      ParsedStep(call, whole, fetched, errors, i - 1, p, rest, limit, failure, p1, df, de);
      p, failure := p1, f;
      fetched := fetched + df;
      errors := errors + de;
      rest := rest[1..];
    }
    r := After(fetched, errors, i, Loop(p, failure, [], [], 0, if failure >= limit then FailureLimit else ReadsExhausted));
  }

  /** One successful read: the bytes land in the window at `offset`, are
      parsed from there, and the offset moves past them, back to the start
      of the buffer once it reaches the second half. */
  method ReadAndParse<P(!new)>(call: (P, seq<byte>) -> Call<P>, p: P, buf: seq<byte>, offset: nat, half: nat, bytes: seq<byte>)
    returns (buf': seq<byte>, offset': nat, p': P, fetched: seq<Frame.Message>, errors: seq<Error>)
    requires Progress(call) && |buf| == half * 2 && offset < half && |bytes| <= half
    ensures |buf'| == half * 2 && offset' < half
    ensures DriveWith(call, p, bytes) == Parsed(p', fetched, errors)
  {
    buf' := ReadInto(buf, offset, half, bytes);
    p', offset', fetched, errors := ParseRead(call, p, buf', offset, bytes);
    if offset' >= half {
      offset' := 0;
    }
  }

  /** One read of `Run`, case by case. */
  lemma RunUnfold<P(!new)>(call: (P, seq<byte>) -> Call<P>, p: P, results: seq<ReadResult>, limit: nat, failure: nat)
    requires Progress(call) && failure < limit && |results| > 0
    ensures var rd := results[0];
      && (rd.status == Failed ==>
            Run(call, p, results, limit, failure) == After([], [], 1, Run(call, p, results[1..], limit, failure + 1)))
      && (rd.status == Eof && |rd.bytes| == 0 ==>
            Run(call, p, results, limit, failure) == Loop(p, failure, [], [], 1, Closed))
      && (rd.status != Failed && (rd.status != Eof || |rd.bytes| > 0) ==>
            var d := DriveWith(call, p, rd.bytes);
            Run(call, p, results, limit, failure)
              == After(d.fetched, d.errors, 1, Run(call, d.p, results[1..], limit, if rd.status == ReadOk then 0 else failure)))
  {
  }

  /** The loop's account after a failed read. */
  lemma FailedStep<P(!new)>(call: (P, seq<byte>) -> Call<P>, whole: Loop<P>, fetched: seq<Frame.Message>, errors: seq<Error>,
                            i: nat, p: P, rest: seq<ReadResult>, limit: nat, failure: nat)
    requires Progress(call) && failure < limit && |rest| > 0 && rest[0].status == Failed
    requires whole == After(fetched, errors, i, Run(call, p, rest, limit, failure))
    ensures whole == After(fetched, errors, i + 1, Run(call, p, rest[1..], limit, failure + 1))
  {
    RunUnfold(call, p, rest, limit, failure);
    AfterAfter(fetched, errors, i, [], [], 1, Run(call, p, rest[1..], limit, failure + 1));
    assert fetched + [] == fetched && errors + [] == errors;
  }

  /** The loop's account after an empty read at end of stream. */
  lemma ClosedStep<P(!new)>(call: (P, seq<byte>) -> Call<P>, whole: Loop<P>, fetched: seq<Frame.Message>, errors: seq<Error>,
                            i: nat, p: P, rest: seq<ReadResult>, limit: nat, failure: nat)
    requires Progress(call) && failure < limit && |rest| > 0 && rest[0].status == Eof && |rest[0].bytes| == 0
    requires whole == After(fetched, errors, i, Run(call, p, rest, limit, failure))
    ensures whole == After(fetched, errors, i + 1, Loop(p, failure, [], [], 0, Closed))
  {
    RunUnfold(call, p, rest, limit, failure);
  }

  /** The loop's account after a read whose bytes were parsed. */
  lemma ParsedStep<P(!new)>(call: (P, seq<byte>) -> Call<P>, whole: Loop<P>, fetched: seq<Frame.Message>, errors: seq<Error>,
                            i: nat, p: P, rest: seq<ReadResult>, limit: nat, failure: nat,
                            p1: P, df: seq<Frame.Message>, de: seq<Error>)
    requires Progress(call) && failure < limit && |rest| > 0
    requires rest[0].status != Failed && (rest[0].status != Eof || |rest[0].bytes| > 0)
    requires whole == After(fetched, errors, i, Run(call, p, rest, limit, failure))
    requires DriveWith(call, p, rest[0].bytes) == Parsed(p1, df, de)
    ensures whole == After(fetched + df, errors + de, i + 1,
                           Run(call, p1, rest[1..], limit, if rest[0].status == ReadOk then 0 else failure))
  {
    RunUnfold(call, p, rest, limit, failure);
    AfterAfter(fetched, errors, i, df, de, 1, Run(call, p1, rest[1..], limit, if rest[0].status == ReadOk then 0 else failure));
  }

  lemma AfterAfter<P>(f1: seq<Frame.Message>, e1: seq<Error>, u1: nat, f2: seq<Frame.Message>, e2: seq<Error>, u2: nat, r: Loop<P>)
    ensures After(f1, e1, u1, After(f2, e2, u2, r)) == After(f1 + f2, e1 + e2, u1 + u2, r)
  {
    assert f1 + (f2 + r.fetched) == (f1 + f2) + r.fetched;
    assert e1 + (e2 + r.errors) == (e1 + e2) + r.errors;
  }

  /** The inner loop: the parser is called on the unparsed part of the
      bytes just read, and a message fetched after each call, until every
      byte is taken; each call takes at least one, so the loop ends. It
      leaves the offset just past the bytes read. */
  method ParseRead<P(!new)>(call: (P, seq<byte>) -> Call<P>, p: P, buf: seq<byte>, offset: nat, bytes: seq<byte>)
    returns (p': P, offset': nat, fetched: seq<Frame.Message>, errors: seq<Error>)
    requires Progress(call) && offset + |bytes| <= |buf| && buf[offset..offset + |bytes|] == bytes
    ensures DriveWith(call, p, bytes) == Parsed(p', fetched, errors)
    ensures offset' == offset + |bytes|
  {
    ghost var whole := DriveWith(call, p, bytes);
    ghost var rest := bytes;
    p', offset', fetched, errors := p, offset, [], [];
    var avail: nat := |bytes|;
    while avail > 0
      invariant avail == |rest| && offset' == offset + |bytes| - avail
      invariant buf[offset'..offset' + avail] == rest
      invariant whole == ParsedAfter(fetched, errors, DriveWith(call, p', rest))
      decreases avail
    {
      var c := call(p', buf[offset'..offset' + avail]);
      ParseStep(call, whole, p', rest, fetched, errors);
      SliceStep(buf, offset', avail, rest, c.writeLen);
      rest := rest[c.writeLen..];
      avail := avail - c.writeLen;
      offset' := offset' + c.writeLen;
      fetched := fetched + Parser.AsSeq(c.got);
      errors := errors + Parser.AsSeq(c.err);
      p' := c.p;
    }
    assert fetched + [] == fetched && errors + [] == errors;
  }

  /** One call of the inner loop moves its results from what is left to
      parse into what was parsed. */
  lemma ParseStep<P(!new)>(call: (P, seq<byte>) -> Call<P>, whole: Parsed<P>, p': P, rest: seq<byte>,
                           fetched: seq<Frame.Message>, errors: seq<Error>)
    requires Progress(call) && |rest| > 0
    requires whole == ParsedAfter(fetched, errors, DriveWith(call, p', rest))
    ensures var c := call(p', rest);
      && 0 < c.writeLen <= |rest|
      && whole == ParsedAfter(fetched + Parser.AsSeq(c.got), errors + Parser.AsSeq(c.err), DriveWith(call, c.p, rest[c.writeLen..]))
  {
    var c := call(p', rest);
    DriveUnfold(call, p', rest);
    Shift(DriveWith(call, p', rest), DriveWith(call, c.p, rest[c.writeLen..]), fetched, errors,
          Parser.AsSeq(c.got), Parser.AsSeq(c.err));
  }

  /** `DriveWith` on bytes is one call followed by `DriveWith` on the rest. */
  lemma DriveUnfold<P(!new)>(call: (P, seq<byte>) -> Call<P>, p: P, b: seq<byte>)
    requires Progress(call) && |b| > 0
    ensures var c := call(p, b);
      && 0 < c.writeLen <= |b|
      && var tail := DriveWith(call, c.p, b[c.writeLen..]);
         DriveWith(call, p, b) == Parsed(tail.p, Parser.AsSeq(c.got) + tail.fetched, Parser.AsSeq(c.err) + tail.errors)
  {
  }

  /** Moving one step's results from a drive into what came before it. */
  lemma Shift<P>(d: Parsed<P>, tail: Parsed<P>, fetched: seq<Frame.Message>, errors: seq<Error>,
                 got: seq<Frame.Message>, err: seq<Error>)
    requires d == Parsed(tail.p, got + tail.fetched, err + tail.errors)
    ensures ParsedAfter(fetched, errors, d) == ParsedAfter(fetched + got, errors + err, tail)
  {
    assert fetched + (got + tail.fetched) == (fetched + got) + tail.fetched;
    assert errors + (err + tail.errors) == (errors + err) + tail.errors;
  }

  /** Dropping the first `n` bytes of the window drops them from what it holds. */
  lemma SliceStep(buf: seq<byte>, offset: nat, avail: nat, x: seq<byte>, n: nat)
    requires offset + avail <= |buf| && buf[offset..offset + avail] == x && n <= avail
    ensures buf[offset + n..offset + avail] == x[n..]
  {
    assert buf[offset + n..offset + avail] == buf[offset..offset + avail][n..];
  }

  function ParsedAfter<P>(fetched: seq<Frame.Message>, errors: seq<Error>, d: Parsed<P>): Parsed<P> {
    Parsed(d.p, fetched + d.fetched, errors + d.errors)
  }

  /** A read into the window `[offset, offset + half)` of the buffer: the
      bytes read land at the offset, the rest of the buffer keeps its
      contents. */
  function ReadInto(buf: seq<byte>, offset: nat, half: nat, bytes: seq<byte>): (r: seq<byte>)
    requires offset + half <= |buf| && |bytes| <= half
    ensures |r| == |buf| && r[offset..offset + |bytes|] == bytes
    ensures r[..offset] == buf[..offset] && r[offset + half..] == buf[offset + half..]
  {
    var window := buf[offset..offset + half];
    var r := buf[..offset] + Copy(window, 0, bytes) + buf[offset + half..];
    CopyContents(window, 0, bytes);
    assert r[offset..offset + half] == Copy(window, 0, bytes);
    assert r[offset..offset + |bytes|] == Copy(window, 0, bytes)[..|bytes|];
    r
  }

  /** The read loop of a connection: its parser goes through the loop and
      its channel is never touched. */
  method ConnectionLoop(c: Conn, results: seq<ReadResult>, half: nat, limit: nat) returns (r: Loop<ValidParser>, c': Conn)
    requires half > 0 && Fits(results, half)
    ensures Progress(ParserCall) && r == Run(ParserCall, c.parser, results, limit, 0)
    ensures c' == Conn(c.mc, r.p)
  {
    ParserProgress();
    r := ReadLoop(ParserCall, c.parser, results, half, limit);
    c' := Conn(c.mc, r.p);
  }

  /** What the loop does with the frame parser is what the parser does with
      the chunks fed to it, one after the other. */
  lemma {:induction false} RunFeeds(p: ValidParser, results: seq<ReadResult>, limit: nat, failure: nat)
    ensures Progress(ParserCall)
    ensures var r := Run(ParserCall, p, results, limit, failure);
      var d := Parser.DriveAll(p, Fed(results, limit, failure));
      r.p == d.p && r.fetched == d.fetched && r.errors == d.errors
    decreases |results|
  {
    ParserProgress();
    if failure < limit && |results| > 0 {
      var rd := results[0];
      if rd.status == Failed {
        RunFeeds(p, results[1..], limit, failure + 1);
      } else if rd.status != Eof || |rd.bytes| > 0 {
        DriveWithParser(p, rd.bytes);
        var d := Parser.Drive(p, rd.bytes);
        var f := if rd.status == ReadOk then 0 else failure;
        RunFeeds(d.p, results[1..], limit, f);
        var chunks := [rd.bytes] + Fed(results[1..], limit, f);
        assert chunks[0] == rd.bytes && chunks[1..] == Fed(results[1..], limit, f);
      }
    }
  }

  /** However the stream is split into reads, and whichever reads fail, the
      loop logs no parse error exactly when the frame extractor, given all
      the bytes the loop accepted at once, stops on none; and then the loop
      fetches exactly the messages the extractor sends. */
  lemma ReadLoopMatchesExtractor(p: ValidParser, results: seq<ReadResult>, limit: nat, c: InputFilter.Channel)
    requires Parser.Settled(p)
    ensures Progress(ParserCall)
    ensures var r := Run(ParserCall, p, results, limit, 0);
      var x := InputFilter.WriteBytes(Parser.Abs(p, c), Concat(Fed(results, limit, 0)));
      && (r.errors == [] <==> x.err.None?)
      && (x.err.None? ==> r.fetched == x.sent)
  {
    RunFeeds(p, results, limit, 0);
    Parser.DriveAllMatchesExtractor(p, Fed(results, limit, 0), c);
  }

  /** When and why the loop stops depends only on the read statuses and
      sizes, never on what the parser makes of the bytes: parse errors do
      not stop it. */
  lemma {:induction false} StopIndependentOfParser<P(!new)>(call: (P, seq<byte>) -> Call<P>, p: P, q: P,
                                                        results: seq<ReadResult>, limit: nat, failure: nat)
    requires Progress(call)
    ensures var a := Run(call, p, results, limit, failure);
      var b := Run(call, q, results, limit, failure);
      a.used == b.used && a.stop == b.stop && a.failure == b.failure
    decreases |results|
  {
    if failure < limit && |results| > 0 {
      var rd := results[0];
      if rd.status == Failed {
        StopIndependentOfParser(call, p, q, results[1..], limit, failure + 1);
      } else if rd.status != Eof || |rd.bytes| > 0 {
        var f := if rd.status == ReadOk then 0 else failure;
        StopIndependentOfParser(call, DriveWith(call, p, rd.bytes).p, DriveWith(call, q, rd.bytes).p, results[1..], limit, f);
      }
    }
  }

  /** Failed reads in a row stop the loop once the count reaches the limit:
      from a count `failure`, after exactly `limit - failure` of them, with
      no bytes parsed. */
  lemma {:induction false} FailuresStop<P(!new)>(call: (P, seq<byte>) -> Call<P>, p: P, results: seq<ReadResult>, limit: nat, failure: nat)
    requires Progress(call) && failure <= limit && limit - failure <= |results|
    requires forall i :: 0 <= i < limit - failure ==> results[i].status == Failed
    ensures var r := Run(call, p, results, limit, failure);
      r.stop == FailureLimit && r.used == limit - failure && r.p == p && r.fetched == [] && r.failure == limit
    decreases limit - failure
  {
    if failure < limit {
      assert results[0].status == Failed;
      FailuresStop(call, p, results[1..], limit, failure + 1);
    }
  }

  /** The count is the number of failed reads since the last read without
      error: a failed read adds one and is otherwise ignored, and a read
      without error clears it. */
  lemma CountsFailures<P(!new)>(call: (P, seq<byte>) -> Call<P>, p: P, rd: ReadResult, results: seq<ReadResult>, limit: nat, failure: nat)
    requires Progress(call) && failure < limit
    ensures rd.status == Failed ==>
      Run(call, p, [rd] + results, limit, failure) == After([], [], 1, Run(call, p, results, limit, failure + 1))
    ensures rd.status == ReadOk ==>
      var d := DriveWith(call, p, rd.bytes);
      Run(call, p, [rd] + results, limit, failure) == After(d.fetched, d.errors, 1, Run(call, d.p, results, limit, 0))
  {
    assert ([rd] + results)[0] == rd && ([rd] + results)[1..] == results;
  }

  /** At end of stream, an empty read ends the loop at once; a read with
      bytes has them parsed, the count unchanged, and the loop goes on. */
  lemma EndOfStream<P(!new)>(call: (P, seq<byte>) -> Call<P>, p: P, rd: ReadResult, results: seq<ReadResult>, limit: nat, failure: nat)
    requires Progress(call) && failure < limit && rd.status == Eof
    ensures |rd.bytes| == 0 ==> Run(call, p, [rd] + results, limit, failure) == Loop(p, failure, [], [], 1, Closed)
    ensures |rd.bytes| > 0 ==>
      var d := DriveWith(call, p, rd.bytes);
      Run(call, p, [rd] + results, limit, failure) == After(d.fetched, d.errors, 1, Run(call, d.p, results, limit, failure))
  {
    assert ([rd] + results)[0] == rd && ([rd] + results)[1..] == results;
  }
}
