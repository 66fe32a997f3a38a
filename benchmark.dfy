/** The benchmark stage: one streaming generate request per model, read as JSON lines.
    The network is replaced by a `GenerateReply` per model, `JSON.parse` by an abstract
    `Parser`, and `performance.now()` by natural-number clock readings. */
module Benchmark {
  import opened Types
  import opened Text

  /** A parsed stream line; every field is optional in the protocol (`done` absent reads as false). */
  datatype Chunk = Chunk(
    response: Option<string>,
    done: bool,
    evalCount: Option<nat>,
    promptEvalCount: Option<nat>)

  /** `JSON.parse` on one line: `None` where it throws. */
  type Parser = string -> Option<Chunk>

  /** One successful `reader.read()`: its decoded text, and the clock reading taken while
      the lines it completes are processed. */
  datatype Read = Read(text: string, at: nat)

  /** A response body: what `res.text()` yields ("" where it fails), the reads of the
      streamed body, and the error a further read raises, if the stream aborts. */
  datatype Body = Body(text: string, stream: seq<Read>, streamError: Option<string>)

  /** What the generate request produces: `fetch` rejects, or a response arrives. */
  datatype GenerateReply =
    | TransportError(message: string)
    | Reply(ok: bool, status: int, body: Option<Body>)

  /** The clock readings of one benchmark: before the request and after the stream ends. */
  datatype Trial = Trial(reply: GenerateReply, startTime: nat, endTime: nat)

  /** The variables the read loop updates. `firstTokenTime == 0` means "not seen yet". */
  datatype Counters = Counters(
    firstTokenTime: nat,
    totalTokens: nat,
    response: string,
    evalCount: nat,
    promptEvalCount: nat)

  const Initial := Counters(0, 0, "", 0, 0)

  /** The counters the clock cannot influence. */
  function Tally(c: Counters): Counters {
    c.(firstTokenTime := 0)
  }

  /** `if (chunk.response)`: a fragment is present and non-empty. */
  predicate HasFragment(chunk: Chunk) {
    chunk.response.Some? && chunk.response.value != ""
  }

  /** The chunk a line contributes, if it is neither blank nor malformed. */
  function ParsedLine(line: string, parse: Parser): Option<Chunk> {
    if Trim(line) == "" then None else parse(line)
  }

  /** The body of the inner `for` loop, applied to one complete line read at time `now`: at
      most one token is counted, and a first-token time once set is kept. */
  function ApplyLine(c: Counters, line: string, parse: Parser, now: nat): (next: Counters)
    ensures c.totalTokens <= next.totalTokens <= c.totalTokens + 1
    ensures c.firstTokenTime != 0 ==> next.firstTokenTime == c.firstTokenTime
  {
    match ParsedLine(line, parse)
    case None => c
    case Some(chunk) =>
      var c1 :=
        if HasFragment(chunk) then
          c.(firstTokenTime := if c.firstTokenTime == 0 then now else c.firstTokenTime,
             response := c.response + chunk.response.value,
             totalTokens := c.totalTokens + 1)
        else c;
      if chunk.done then
        c1.(evalCount := chunk.evalCount.GetOr(c1.totalTokens),
            promptEvalCount := chunk.promptEvalCount.GetOr(0))
      else c1
  }

  /** The inner loop over the complete lines of one read. */
  function ApplyLines(c: Counters, lines: seq<string>, parse: Parser, now: nat): Counters
    decreases |lines|
  {
    if |lines| == 0 then c
    else ApplyLine(ApplyLines(c, lines[..|lines| - 1], parse, now), lines[|lines| - 1], parse, now)
  }

  /** The line buffer together with the counters. */
  datatype StreamState = StreamState(buffer: string, counters: Counters)

  /** One iteration of the read loop: append the text, process the completed lines,
      keep the unterminated rest in the buffer. Afterwards the buffer holds no newline, and the
      lines handed to the inner loop, each followed by a newline, then the buffer, make up the
      old buffer plus the new text. */
  function Feed(st: StreamState, r: Read, parse: Parser): (next: StreamState)
    ensures '\n' !in next.buffer
    ensures Join(ClosedPieces(st.buffer + r.text, '\n') + [next.buffer], '\n') == st.buffer + r.text
  {
    var text := st.buffer + r.text;
    var parts := Split(text, '\n');
    SplitPiecesFree(text, '\n');
    JoinSplit(text, '\n');
    assert parts == parts[..|parts| - 1] + [parts[|parts| - 1]];
    StreamState(LastPiece(text, '\n'), ApplyLines(st.counters, ClosedPieces(text, '\n'), parse, r.at))
  }

  /** The read loop over all reads of the stream. */
  function Consume(rs: seq<Read>, parse: Parser): StreamState
    decreases |rs|
  {
    if |rs| == 0 then StreamState("", Initial)
    else Feed(Consume(rs[..|rs| - 1], parse), rs[|rs| - 1], parse)
  }

  /** The error message for a non-ok (or body-less) response. */
  function HttpError(status: int, bodyText: string): (msg: string)
    ensures |msg| > 5 && msg[..5] == "HTTP "
    ensures |msg| >= 5 + |IntToString(status)| && msg[..5 + |IntToString(status)|] == "HTTP " + IntToString(status)
    ensures Contains(msg, Hint) <==> Contains(bodyText, "not found")
  {
    var head := "HTTP " + IntToString(status);
    StatusLineLacksHint(status);
    ContainsAppended(head, Hint);
    assert head + "" == head;
    head + (if Contains(bodyText, "not found") then Hint else "")
  }

  /** The status line alone never contains the hint: it has no opening parenthesis. */
  lemma StatusLineLacksHint(status: int)
    ensures !Contains("HTTP " + IntToString(status), Hint)
  {
    var head := "HTTP " + IntToString(status);
    forall k | 0 <= k < |head| ensures head[k] != Hint[1] {
      if k >= 5 {
        assert head[k] == IntToString(status)[k - 5];
      }
    }
    NoOccurrence(head, Hint, 1);
  }

  /** The suffix added when the body says the model was not found. */
  const Hint := " (model removed or not pulled)"

  /** A string missing one of the characters of `t` has no occurrence of `t`. */
  lemma NoOccurrence(s: string, t: string, j: nat)
    requires j < |t|
    requires forall k :: 0 <= k < |s| ==> s[k] != t[j]
    ensures !Contains(s, t)
  {
    forall i ensures !OccursAt(s, t, i) {
      if 0 <= i && i + |t| <= |s| {
        assert s[i..i + |t|][j] == s[i + j];
      }
    }
  }

  /** Whatever is appended is contained in the result. */
  lemma ContainsAppended(s: string, t: string)
    ensures Contains(s + t, t)
  {
    assert (s + t)[|s|..|s| + |t|] == t;
    assert OccursAt(s + t, t, |s|);
  }

  /** The result record built from the counters once the stream has ended.
      A zero elapsed time (which makes the source divide by zero) gives 0 tokens per second. */
  function Derive(model: ModelInfo, c: Counters, startTime: nat, endTime: nat): (r: BenchmarkResult)
    ensures r.model == model && r.response == c.response
    ensures r.totalTokens >= c.evalCount
    ensures c.evalCount == 0 ==> r.tokensPerSecond == 0.0
    ensures endTime >= (if c.firstTokenTime != 0 then c.firstTokenTime else startTime) ==> r.tokensPerSecond >= 0.0
    ensures c.firstTokenTime == 0 ==> r.timeToFirstToken == 0
    ensures c.firstTokenTime > 0 ==> r.timeToFirstToken == c.firstTokenTime - startTime
    ensures r.totalTime == endTime - startTime
    ensures r.evalCount == c.evalCount && r.promptEvalCount == c.promptEvalCount
  {
    var from := if c.firstTokenTime != 0 then c.firstTokenTime else startTime;
    var elapsed := endTime - from;
    BenchmarkResult(
      model,
      c.response,
      if c.evalCount != 0 then c.evalCount else c.totalTokens,
      if c.evalCount > 0 && elapsed != 0 then c.evalCount as real / (elapsed as real / 1000.0) else 0.0,
      if c.firstTokenTime > 0 then c.firstTokenTime - startTime else 0,
      endTime - startTime,
      c.evalCount,
      c.promptEvalCount)
  }

  /** What `benchmarkModel` resolves to (`Success`) or rejects with (`Failure`). */
  function Outcome(model: ModelInfo, t: Trial, parse: Parser): (r: Result<BenchmarkResult, string>)
    ensures t.reply.TransportError? ==> r == Failure(t.reply.message)
    ensures t.reply.Reply? && (!t.reply.ok || t.reply.body.None?)
            ==> r == Failure(HttpError(t.reply.status, if t.reply.body.Some? then t.reply.body.value.text else ""))
    ensures t.reply.Reply? && t.reply.ok && t.reply.body.Some? && t.reply.body.value.streamError.Some?
            ==> r == Failure(t.reply.body.value.streamError.value)
    ensures r.Success? <==> t.reply.Reply? && t.reply.ok && t.reply.body.Some? && t.reply.body.value.streamError.None?
  {
    match t.reply
    case TransportError(message) => Failure(message)
    case Reply(ok, status, body) =>
      if !ok || body.None? then
        Failure(HttpError(status, if body.Some? then body.value.text else ""))
      else if body.value.streamError.Some? then
        Failure(body.value.streamError.value)
      else
        Success(Derive(model, Consume(body.value.stream, parse).counters, t.startTime, t.endTime))
  }

  /** `benchmarkModel`: the checks on the response, the read loop, then the result. */
  method BenchmarkModel(model: ModelInfo, t: Trial, parse: Parser) returns (r: Result<BenchmarkResult, string>)
    ensures r == Outcome(model, t, parse)
  {
    if t.reply.TransportError? {
      return Failure(t.reply.message);
    }
    if !t.reply.ok || t.reply.body.None? {
      var bodyText := if t.reply.body.Some? then t.reply.body.value.text else "";
      return Failure(HttpError(t.reply.status, bodyText));
    }
    var _, counters := ReadStream(t.reply.body.value.stream, parse);
    if t.reply.body.value.streamError.Some? {
      return Failure(t.reply.body.value.streamError.value);
    }
    r := Success(Derive(model, counters, t.startTime, t.endTime));
  }

  /** The `while (true)` read loop: append each read to the buffer, process its complete lines,
      keep the unterminated rest. Ends with the buffer and counters `Consume` describes. */
  method ReadStream(rs: seq<Read>, parse: Parser) returns (buffer: string, c: Counters)
    ensures StreamState(buffer, c) == Consume(rs, parse)
  {
    var firstTokenTime: nat := 0;
    var totalTokens: nat := 0;
    var response := "";
    var evalCount: nat := 0;
    var promptEvalCount: nat := 0;
    buffer := "";
    var k := 0;
    while k < |rs|
      invariant 0 <= k <= |rs|
      invariant StreamState(buffer, Counters(firstTokenTime, totalTokens, response, evalCount, promptEvalCount))
             == Consume(rs[..k], parse)
    {
      ghost var before := Consume(rs[..k], parse);
      assert rs[..k + 1][..k] == rs[..k];
      assert Consume(rs[..k + 1], parse) == Feed(before, rs[k], parse);
      var read := rs[k];
      buffer := buffer + read.text;
      ghost var text := buffer;
      var lines := Split(buffer, '\n');
      buffer := lines[|lines| - 1];
      lines := lines[..|lines| - 1];
      assert buffer == LastPiece(text, '\n') && lines == ClosedPieces(text, '\n');
      var next := ProcessLines(Counters(firstTokenTime, totalTokens, response, evalCount, promptEvalCount), lines, parse, read.at);
      assert StreamState(buffer, next) == Feed(before, rs[k], parse);
      firstTokenTime, totalTokens, response, evalCount, promptEvalCount :=
        next.firstTokenTime, next.totalTokens, next.response, next.evalCount, next.promptEvalCount;
      k := k + 1;
    }
    assert rs[..|rs|] == rs;
    c := Counters(firstTokenTime, totalTokens, response, evalCount, promptEvalCount);
  }

  /** The inner `for` loop over the complete lines of one read. */
  method ProcessLines(c0: Counters, lines: seq<string>, parse: Parser, now: nat) returns (c: Counters)
    ensures c == ApplyLines(c0, lines, parse, now)
  {
    var firstTokenTime, totalTokens, response, evalCount, promptEvalCount :=
      c0.firstTokenTime, c0.totalTokens, c0.response, c0.evalCount, c0.promptEvalCount;
    for j := 0 to |lines|
      invariant Counters(firstTokenTime, totalTokens, response, evalCount, promptEvalCount)
             == ApplyLines(c0, lines[..j], parse, now)
    {
      assert lines[..j + 1][..j] == lines[..j];
      var line := lines[j];
      if Trim(line) == "" {
        continue;
      }
      var parsed := parse(line);
      if parsed.None? {
        continue;
      }
      var chunk := parsed.value;
      if chunk.response.Some? && chunk.response.value != "" {
        if firstTokenTime == 0 {
          firstTokenTime := now;
        }
        response := response + chunk.response.value;
        totalTokens := totalTokens + 1;
      }
      if chunk.done {
        evalCount := chunk.evalCount.GetOr(totalTokens);
        promptEvalCount := chunk.promptEvalCount.GetOr(0);
      }
    }
    assert lines[..|lines|] == lines;
    c := Counters(firstTokenTime, totalTokens, response, evalCount, promptEvalCount);
  }

  // ---------------------------------------------------------------------------
  // Properties of the line buffer and the counters
  // ---------------------------------------------------------------------------

  /** All the text the stream delivered. */
  function AllText(rs: seq<Read>): string
    decreases |rs|
  {
    if |rs| == 0 then "" else AllText(rs[..|rs| - 1]) + rs[|rs| - 1].text
  }

  /** Every line the read loop hands to the inner loop, across all reads, in order. */
  function ParsedLines(rs: seq<Read>, parse: Parser): seq<string>
    decreases |rs|
  {
    if |rs| == 0 then []
    else
      var prev := rs[..|rs| - 1];
      ParsedLines(prev, parse) + ClosedPieces(Consume(prev, parse).buffer + rs[|rs| - 1].text, '\n')
  }

  /** However the stream is cut into reads, the lines processed are exactly the newline-terminated
      lines of the whole text, and what is left in the buffer is its unterminated tail, which is
      therefore never parsed. */
  lemma {:induction false} StreamLines(rs: seq<Read>, parse: Parser)
    ensures ParsedLines(rs, parse) == ClosedPieces(AllText(rs), '\n')
    ensures Consume(rs, parse).buffer == LastPiece(AllText(rs), '\n')
    decreases |rs|
  {
    if |rs| > 0 {
      var prev := rs[..|rs| - 1];
      var t := rs[|rs| - 1].text;
      StreamLines(prev, parse);
      var b := Consume(prev, parse).buffer;
      assert AllText(rs) == AllText(prev) + t;
      SplitAppend(AllText(prev), t, '\n');
      SnocPieces(ParsedLines(prev, parse), Split(b + t, '\n'));
    }
  }

  /** The closed pieces and the last piece of `done + tail`, for a non-empty `tail`. */
  lemma SnocPieces(done: seq<string>, tail: seq<string>)
    requires |tail| > 0
    ensures (done + tail)[..|done + tail| - 1] == done + tail[..|tail| - 1]
    ensures (done + tail)[|done + tail| - 1] == tail[|tail| - 1]
  {
  }

  /** Running the inner loop over two batches of lines is running it over their concatenation. */
  lemma {:induction false} ApplyLinesAppend(c: Counters, a: seq<string>, b: seq<string>, parse: Parser, now: nat)
    ensures ApplyLines(c, a + b, parse, now) == ApplyLines(ApplyLines(c, a, parse, now), b, parse, now)
    decreases |b|
  {
    if |b| == 0 {
      assert a + b == a;
    } else {
      assert (a + b)[..|a + b| - 1] == a + b[..|b| - 1];
      ApplyLinesAppend(c, a, b[..|b| - 1], parse, now);
    }
  }

  /** Only the first-token time depends on the clock. */
  lemma {:induction false} ApplyLinesTally(c: Counters, d: Counters, lines: seq<string>, parse: Parser, now: nat, now': nat)
    requires Tally(c) == Tally(d)
    ensures Tally(ApplyLines(c, lines, parse, now)) == Tally(ApplyLines(d, lines, parse, now'))
    decreases |lines|
  {
    if |lines| > 0 {
      var init := lines[..|lines| - 1];
      ApplyLinesTally(c, d, init, parse, now, now');
      ApplyLineTally(ApplyLines(c, init, parse, now), ApplyLines(d, init, parse, now'), lines[|lines| - 1], parse, now, now');
    }
  }

  lemma ApplyLineTally(c: Counters, d: Counters, line: string, parse: Parser, now: nat, now': nat)
    requires Tally(c) == Tally(d)
    ensures Tally(ApplyLine(c, line, parse, now)) == Tally(ApplyLine(d, line, parse, now'))
  {
  }

  lemma {:induction false} ConsumeTally(rs: seq<Read>, parse: Parser)
    ensures Tally(Consume(rs, parse).counters) == Tally(ApplyLines(Initial, ParsedLines(rs, parse), parse, 0))
    decreases |rs|
  {
    if |rs| > 0 {
      var prev := rs[..|rs| - 1];
      var r := rs[|rs| - 1];
      ConsumeTally(prev, parse);
      var st := Consume(prev, parse);
      var newLines := ClosedPieces(st.buffer + r.text, '\n');
      var before := ApplyLines(Initial, ParsedLines(prev, parse), parse, 0);
      ApplyLinesTally(st.counters, before, newLines, parse, r.at, 0);
      ApplyLinesAppend(Initial, ParsedLines(prev, parse), newLines, parse, 0);
    }
  }

  /** Splitting the stream into reads differently changes nothing but the first-token time:
      the counters are those of the inner loop run once over the complete lines of the whole text. */
  lemma ChunkingIrrelevant(rs: seq<Read>, parse: Parser)
    ensures Tally(Consume(rs, parse).counters)
         == Tally(ApplyLines(Initial, ClosedPieces(AllText(rs), '\n'), parse, 0))
  {
    ConsumeTally(rs, parse);
    StreamLines(rs, parse);
  }

  /** A blank or malformed line leaves every counter unchanged. */
  lemma SkippedLineChangesNothing(c: Counters, line: string, parse: Parser, now: nat)
    requires IsBlank(line) || parse(line).None?
    ensures ApplyLine(c, line, parse, now) == c
  {
    TrimEmptyIffBlank(line);
  }

  /** The non-empty response fragments carried by the given lines, in order. */
  function Fragments(lines: seq<string>, parse: Parser): seq<string>
    decreases |lines|
  {
    if |lines| == 0 then []
    else
      var p := ParsedLine(lines[|lines| - 1], parse);
      Fragments(lines[..|lines| - 1], parse)
      + (if p.Some? && HasFragment(p.value) then [p.value.response.value] else [])
  }

  function Concat(ss: seq<string>): string
    decreases |ss|
  {
    if |ss| == 0 then "" else Concat(ss[..|ss| - 1]) + ss[|ss| - 1]
  }

  /** Each fragment adds exactly one token, and the response is the fragments in order. */
  lemma {:induction false} TokensAreFragments(c: Counters, lines: seq<string>, parse: Parser, now: nat)
    ensures ApplyLines(c, lines, parse, now).totalTokens == c.totalTokens + |Fragments(lines, parse)|
    ensures ApplyLines(c, lines, parse, now).response == c.response + Concat(Fragments(lines, parse))
    decreases |lines|
  {
    if |lines| > 0 {
      var prev := lines[..|lines| - 1];
      TokensAreFragments(c, prev, parse, now);
      var p := ParsedLine(lines[|lines| - 1], parse);
      if p.Some? && HasFragment(p.value) {
        var fs := Fragments(prev, parse);
        var f := p.value.response.value;
        assert (fs + [f])[..|fs|] == fs;
        assert Concat(fs + [f]) == Concat(fs) + f;
      } else {
        assert Fragments(lines, parse) == Fragments(prev, parse) + [];
        assert Fragments(prev, parse) + [] == Fragments(prev, parse);
      }
    }
  }

  /** The first-token time is set once: a set value is never replaced, and it stays unset
      as long as no fragment has arrived. */
  lemma {:induction false} FirstTokenSetOnce(c: Counters, lines: seq<string>, parse: Parser, now: nat)
    ensures c.firstTokenTime != 0 ==> ApplyLines(c, lines, parse, now).firstTokenTime == c.firstTokenTime
    ensures Fragments(lines, parse) == [] ==> ApplyLines(c, lines, parse, now).firstTokenTime == c.firstTokenTime
    ensures c.firstTokenTime == 0 && Fragments(lines, parse) != [] && now != 0
            ==> ApplyLines(c, lines, parse, now).firstTokenTime == now
    decreases |lines|
  {
    if |lines| > 0 {
      var init := lines[..|lines| - 1];
      var last := lines[|lines| - 1];
      FirstTokenSetOnce(c, init, parse, now);
      var p := ParsedLine(last, parse);
      if !(p.Some? && HasFragment(p.value)) {
        assert Fragments(lines, parse) == Fragments(init, parse) + [];
        assert ApplyLine(ApplyLines(c, init, parse, now), last, parse, now).firstTokenTime
            == ApplyLines(c, init, parse, now).firstTokenTime;
      }
    }
  }

  /** The line holds a chunk whose `done` flag is set. */
  predicate IsDone(line: string, parse: Parser) {
    var p := ParsedLine(line, parse);
    p.Some? && p.value.done
  }

  /** Without a `done` chunk the reported counts keep their values. */
  lemma {:induction false} NoDoneKeepsCounts(c: Counters, lines: seq<string>, parse: Parser, now: nat)
    requires forall i :: 0 <= i < |lines| ==> !IsDone(lines[i], parse)
    ensures ApplyLines(c, lines, parse, now).evalCount == c.evalCount
    ensures ApplyLines(c, lines, parse, now).promptEvalCount == c.promptEvalCount
    decreases |lines|
  {
    if |lines| > 0 {
      assert !IsDone(lines[|lines| - 1], parse);
      NoDoneKeepsCounts(c, lines[..|lines| - 1], parse, now);
    }
  }

  /** The last `done` chunk decides the reported counts: `eval_count`, or else the local count
      at that point, and `prompt_eval_count`, or else 0. */
  lemma LastDoneWins(c: Counters, before: seq<string>, line: string, after: seq<string>, parse: Parser, now: nat)
    requires IsDone(line, parse)
    requires forall i :: 0 <= i < |after| ==> !IsDone(after[i], parse)
    ensures var chunk := ParsedLine(line, parse).value;
            var upTo := ApplyLines(c, before + [line], parse, now);
            var r := ApplyLines(c, before + [line] + after, parse, now);
            r.evalCount == chunk.evalCount.GetOr(upTo.totalTokens)
            && r.promptEvalCount == chunk.promptEvalCount.GetOr(0)
  {
    assert (before + [line])[..|before|] == before;
    ApplyLinesAppend(c, before + [line], after, parse, now);
    NoDoneKeepsCounts(ApplyLines(c, before + [line], parse, now), after, parse, now);
  }

  /** The lines of the stream that the counters see. */
  function StreamLinesOf(t: Trial): seq<string>
    requires t.reply.Reply? && t.reply.body.Some?
  {
    ClosedPieces(AllText(t.reply.body.value.stream), '\n')
  }

  /** What a completed stream reports, in terms of its complete lines alone. */
  lemma StreamResult(model: ModelInfo, t: Trial, parse: Parser)
    requires t.reply.Reply? && t.reply.ok && t.reply.body.Some? && t.reply.body.value.streamError.None?
    ensures Outcome(model, t, parse).Success?
    ensures var r := Outcome(model, t, parse).value;
            var frags := Fragments(StreamLinesOf(t), parse);
            && r.model == model
            && r.response == Concat(frags)
            && (r.evalCount != 0 ==> r.totalTokens == r.evalCount)
            && (r.evalCount == 0 ==> r.totalTokens == |frags| && r.tokensPerSecond == 0.0)
            && (frags == [] ==> r.timeToFirstToken == 0)
            && ((forall i :: 0 <= i < |StreamLinesOf(t)| ==> !IsDone(StreamLinesOf(t)[i], parse))
                ==> r.evalCount == 0 && r.promptEvalCount == 0)
    ensures var r := Outcome(model, t, parse).value; var c := Consume(t.reply.body.value.stream, parse).counters;
            && r.totalTime == t.endTime - t.startTime
            && r.evalCount == c.evalCount && r.promptEvalCount == c.promptEvalCount
    ensures var rs := t.reply.body.value.stream;
            forall k :: 0 <= k < |rs| && FirstFragmentRead(rs, parse, k) && rs[k].at != 0
              ==> Outcome(model, t, parse).value.timeToFirstToken == rs[k].at - t.startTime
  {
    var rs := t.reply.body.value.stream;
    StreamCounters(rs, parse);
    forall k | 0 <= k < |rs| && FirstFragmentRead(rs, parse, k) && rs[k].at != 0
      ensures Outcome(model, t, parse).value.timeToFirstToken == rs[k].at - t.startTime
    {
      ConsumeFirstTokenAt(rs, parse, k);
    }
  }

  /** Read `k` is the one that delivers the stream's first fragment. */
  predicate FirstFragmentRead(rs: seq<Read>, parse: Parser, k: nat)
    requires k < |rs|
  {
    Fragments(ParsedLines(rs[..k], parse), parse) == [] && Fragments(ParsedLines(rs[..k + 1], parse), parse) != []
  }

  /** The first-token time of a whole stream is the clock reading of the read that delivered
      the first fragment (when that reading is not the "unset" value 0). */
  lemma {:induction false} ConsumeFirstTokenAt(rs: seq<Read>, parse: Parser, k: nat)
    requires k < |rs| && FirstFragmentRead(rs, parse, k) && rs[k].at != 0
    ensures Consume(rs, parse).counters.firstTokenTime == rs[k].at
    decreases |rs|
  {
    var prev := rs[..|rs| - 1];
    var r := rs[|rs| - 1];
    var st := Consume(prev, parse);
    var newLines := ClosedPieces(st.buffer + r.text, '\n');
    if |rs| == k + 1 {
      assert rs[..k + 1] == rs && prev == rs[..k];
      ConsumeFirstToken(prev, parse);
      FragmentsAppend(ParsedLines(prev, parse), newLines, parse);
      FirstTokenSetOnce(st.counters, newLines, parse, r.at);
    } else {
      assert prev[..k] == rs[..k] && prev[..k + 1] == rs[..k + 1];
      ConsumeFirstTokenAt(prev, parse, k);
      FirstTokenSetOnce(st.counters, newLines, parse, r.at);
    }
  }

  /** The counters after a whole stream, in terms of its complete lines alone. */
  lemma StreamCounters(rs: seq<Read>, parse: Parser)
    ensures var c := Consume(rs, parse).counters;
            var lines := ClosedPieces(AllText(rs), '\n');
            var frags := Fragments(lines, parse);
            && c.response == Concat(frags)
            && c.totalTokens == |frags|
            && (frags == [] ==> c.firstTokenTime == 0)
            && ((forall i :: 0 <= i < |lines| ==> !IsDone(lines[i], parse)) ==> c.evalCount == 0 && c.promptEvalCount == 0)
  {
    var lines := ClosedPieces(AllText(rs), '\n');
    ChunkingIrrelevant(rs, parse);
    TokensAreFragments(Initial, lines, parse, 0);
    StreamLines(rs, parse);
    ConsumeFirstToken(rs, parse);
    if forall i :: 0 <= i < |lines| ==> !IsDone(lines[i], parse) {
      NoDoneKeepsCounts(Initial, lines, parse, 0);
    }
  }

  /** Over the whole stream, no fragment means no first-token time. */
  lemma {:induction false} ConsumeFirstToken(rs: seq<Read>, parse: Parser)
    ensures Fragments(ParsedLines(rs, parse), parse) == [] ==> Consume(rs, parse).counters.firstTokenTime == 0
    decreases |rs|
  {
    if |rs| > 0 {
      var prev := rs[..|rs| - 1];
      var r := rs[|rs| - 1];
      var st := Consume(prev, parse);
      var newLines := ClosedPieces(st.buffer + r.text, '\n');
      FragmentsAppend(ParsedLines(prev, parse), newLines, parse);
      ConsumeFirstToken(prev, parse);
      FirstTokenSetOnce(st.counters, newLines, parse, r.at);
    }
  }

  lemma {:induction false} FragmentsAppend(a: seq<string>, b: seq<string>, parse: Parser)
    ensures Fragments(a + b, parse) == Fragments(a, parse) + Fragments(b, parse)
    decreases |b|
  {
    if |b| == 0 {
      assert a + b == a;
    } else {
      assert (a + b)[..|a + b| - 1] == a + b[..|b| - 1];
      FragmentsAppend(a, b[..|b| - 1], parse);
    }
  }

  // ---------------------------------------------------------------------------
  // The outer loop: keep successes, in order
  // ---------------------------------------------------------------------------

  /** The successful values of a sequence of outcomes, in order. */
  function Successes<R, E>(outs: seq<Result<R, E>>): seq<R>
    decreases |outs|
  {
    if |outs| == 0 then []
    else
      var last := outs[|outs| - 1];
      Successes(outs[..|outs| - 1]) + (if last.Success? then [last.value] else [])
  }

  /** The indices of the successful outcomes, ascending. */
  function SuccessIndices<R, E>(outs: seq<Result<R, E>>): seq<nat>
    decreases |outs|
  {
    if |outs| == 0 then []
    else
      SuccessIndices(outs[..|outs| - 1]) + (if outs[|outs| - 1].Success? then [|outs| - 1] else [])
  }

  /** The outcome of each model's benchmark, position by position. */
  function Outcomes(models: seq<ModelInfo>, trials: seq<Trial>, parse: Parser): (outs: seq<Result<BenchmarkResult, string>>)
    requires |trials| == |models|
    ensures |outs| == |models|
  {
    seq(|models|, i requires 0 <= i < |models| => Outcome(models[i], trials[i], parse))
  }

  /** `benchmark`: run each model in turn and push the result of every run that did not throw. */
  method BenchmarkAll(models: seq<ModelInfo>, trials: seq<Trial>, parse: Parser) returns (results: seq<BenchmarkResult>)
    requires |trials| == |models|
    ensures results == Successes(Outcomes(models, trials, parse))
  {
    ghost var outs := Outcomes(models, trials, parse);
    results := [];
    for i := 0 to |models|
      invariant results == Successes(outs[..i])
    {
      assert outs[..i + 1][..i] == outs[..i];
      var r := BenchmarkModel(models[i], trials[i], parse);
      if r.Success? {
        results := results + [r.value];
      }
    }
    assert outs[..|models|] == outs;
  }

  /** The results are the successful outcomes, one per success, in input order; failures are absent. */
  lemma {:induction false} SuccessesInOrder<R, E>(outs: seq<Result<R, E>>)
    ensures |Successes(outs)| == |SuccessIndices(outs)| <= |outs|
    ensures forall k :: 0 <= k < |SuccessIndices(outs)| ==>
              SuccessIndices(outs)[k] < |outs| && outs[SuccessIndices(outs)[k]] == Success(Successes(outs)[k])
    ensures forall k, l :: 0 <= k < l < |SuccessIndices(outs)| ==> SuccessIndices(outs)[k] < SuccessIndices(outs)[l]
    ensures forall i :: 0 <= i < |outs| ==> (outs[i].Success? <==> i in SuccessIndices(outs))
    decreases |outs|
  {
    if |outs| > 0 {
      var prev := outs[..|outs| - 1];
      SuccessesInOrder(prev);
      forall i | 0 <= i < |prev| ensures outs[i] == prev[i] { }
    }
  }

  /** A successful benchmark reports on the model it was given. */
  lemma OutcomeModel(model: ModelInfo, t: Trial, parse: Parser)
    requires Outcome(model, t, parse).Success?
    ensures Outcome(model, t, parse).value.model == model
  {
  }

  /** `benchmark` returns exactly one record per model whose run succeeded, in input order. */
  lemma BenchmarkKeepsSuccesses(models: seq<ModelInfo>, trials: seq<Trial>, parse: Parser)
    requires |trials| == |models|
    ensures var outs := Outcomes(models, trials, parse);
            var results := Successes(outs);
            var idx := SuccessIndices(outs);
            && |results| == |idx| <= |models|
            && (forall k :: 0 <= k < |idx| ==>
                  idx[k] < |models| && results[k].model == models[idx[k]]
                  && Outcome(models[idx[k]], trials[idx[k]], parse) == Success(results[k]))
            && (forall k, l :: 0 <= k < l < |idx| ==> idx[k] < idx[l])
            && (forall i :: 0 <= i < |models| ==> (Outcome(models[i], trials[i], parse).Success? <==> i in idx))
  {
    var outs := Outcomes(models, trials, parse);
    SuccessesInOrder(outs);
    forall k | 0 <= k < |SuccessIndices(outs)|
      ensures Successes(outs)[k].model == models[SuccessIndices(outs)[k]]
    {
      var i := SuccessIndices(outs)[k];
      OutcomeModel(models[i], trials[i], parse);
    }
  }

  /** Lines that all carry a fragment contribute one fragment each. */
  lemma {:induction false} EveryLineAFragment(lines: seq<string>, parse: Parser)
    requires forall i :: 0 <= i < |lines| ==> ParsedLine(lines[i], parse).Some? && HasFragment(ParsedLine(lines[i], parse).value)
    ensures |Fragments(lines, parse)| == |lines|
    decreases |lines|
  {
    if |lines| > 0 {
      var prev := lines[..|lines| - 1];
      forall i | 0 <= i < |prev| ensures prev[i] == lines[i] { }
      EveryLineAFragment(prev, parse);
    }
  }

  /** A stream of five lines each carrying a one-token fragment, then a `done` line with
      `eval_count` 5, all newline-terminated, reports 5 tokens. */
  lemma FiveFragmentsThenDone(model: ModelInfo, parse: Parser, lines: seq<string>, startTime: nat, endTime: nat, at: nat)
    requires |lines| == 6
    requires forall i :: 0 <= i < 6 ==> '\n' !in lines[i] && !IsBlank(lines[i])
    requires forall i :: 0 <= i < 5 ==> parse(lines[i]) == Some(Chunk(Some("x"), false, None, None))
    requires parse(lines[5]) == Some(Chunk(None, true, Some(5), None))
    ensures var t := Trial(Reply(true, 200, Some(Body("", [Read(Join(lines + [""], '\n'), at)], None))), startTime, endTime);
            Outcome(model, t, parse).Success? && Outcome(model, t, parse).value.totalTokens == 5
            && |Outcome(model, t, parse).value.response| == 5
  {
    forall i | 0 <= i < |lines| ensures '\n' !in lines[i] { }
    OneReadConsume(lines, parse, at);
    FiveThenDoneCounts(lines, parse, at);
  }

  /** Without any fragment, throughput is measured from the start of the request: a stream whose
      only line is a `done` chunk with `eval_count` 5, read between clock readings 0 and 1000,
      reports 5 tokens per second and a time to first token of 0. */
  lemma DoneOnlyThroughput(model: ModelInfo, parse: Parser, line: string, at: nat)
    requires '\n' !in line && !IsBlank(line)
    requires parse(line) == Some(Chunk(None, true, Some(5), None))
    ensures var t := Trial(Reply(true, 200, Some(Body("", [Read(Join([line, ""], '\n'), at)], None))), 0, 1000);
            Outcome(model, t, parse).Success? && Outcome(model, t, parse).value.tokensPerSecond == 5.0
            && Outcome(model, t, parse).value.timeToFirstToken == 0 && Outcome(model, t, parse).value.totalTokens == 5
  {
    OneReadConsume([line], parse, at);
    assert [line] + [""] == [line, ""];
    DoneOnlyCounts(line, parse, at);
    var c := Counters(0, 0, "", 5, 0);
    assert Derive(model, c, 0, 1000).tokensPerSecond == 5.0 / (1000.0 / 1000.0) == 5.0;
  }

  /** The counters after that single `done` line: nothing counted locally, `eval_count` 5. */
  lemma DoneOnlyCounts(line: string, parse: Parser, at: nat)
    requires !IsBlank(line)
    requires parse(line) == Some(Chunk(None, true, Some(5), None))
    ensures ApplyLines(Initial, [line], parse, at) == Counters(0, 0, "", 5, 0)
  {
    TrimEmptyIffBlank(line);
    assert ParsedLine(line, parse) == parse(line);
    assert [line][..0] == [];
  }

  /** A single read of newline-terminated lines processes exactly those lines. */
  lemma OneReadConsume(lines: seq<string>, parse: Parser, at: nat)
    requires forall i :: 0 <= i < |lines| ==> '\n' !in lines[i]
    ensures Consume([Read(Join(lines + [""], '\n'), at)], parse).counters == ApplyLines(Initial, lines, parse, at)
  {
    var text := Join(lines + [""], '\n');
    var rs := [Read(text, at)];
    forall i | 0 <= i < |lines + [""]| ensures '\n' !in (lines + [""])[i] {
      if i < |lines| {
        assert (lines + [""])[i] == lines[i];
      }
    }
    SplitJoin(lines + [""], '\n');
    assert ClosedPieces(text, '\n') == lines;
    assert "" + text == text;
    assert rs[..0] == [];
  }

  /** The counters after five one-token fragments and a `done` line with `eval_count` 5. */
  lemma FiveThenDoneCounts(lines: seq<string>, parse: Parser, at: nat)
    requires |lines| == 6
    requires forall i :: 0 <= i < 6 ==> !IsBlank(lines[i])
    requires forall i :: 0 <= i < 5 ==> parse(lines[i]) == Some(Chunk(Some("x"), false, None, None))
    requires parse(lines[5]) == Some(Chunk(None, true, Some(5), None))
    ensures ApplyLines(Initial, lines, parse, at).evalCount == 5
    ensures |ApplyLines(Initial, lines, parse, at).response| == 5
  {
    forall i | 0 <= i < 6 ensures ParsedLine(lines[i], parse) == parse(lines[i]) {
      TrimEmptyIffBlank(lines[i]);
    }
    var first := lines[..5];
    EveryLineAFragment(first, parse);
    assert lines == first + [lines[5]] + [];
    LastDoneWins(Initial, first, lines[5], [], parse, at);
    TokensAreFragments(Initial, first, parse, at);
    TokensAreFragments(Initial, lines, parse, at);
    FragmentLengths(lines, parse);
  }

  /** Fragments of "x" concatenate to one character per fragment. */
  lemma {:induction false} FragmentLengths(lines: seq<string>, parse: Parser)
    requires forall i :: 0 <= i < |lines| ==> parse(lines[i]).Some? && parse(lines[i]).value.response.Some?
                                              ==> |parse(lines[i]).value.response.value| <= 1
    ensures |Concat(Fragments(lines, parse))| == |Fragments(lines, parse)|
    decreases |lines|
  {
    if |lines| > 0 {
      var prev := lines[..|lines| - 1];
      forall i | 0 <= i < |prev| ensures prev[i] == lines[i] { }
      FragmentLengths(prev, parse);
      var p := ParsedLine(lines[|lines| - 1], parse);
      var fs := Fragments(prev, parse);
      if p.Some? && HasFragment(p.value) {
        var f := p.value.response.value;
        assert (fs + [f])[..|fs|] == fs;
      } else {
        assert fs + [] == fs;
      }
    }
  }
}
