/**
 * The search-output loop of `analyze_with_stockfish` (app/utils/stockfish.py,
 * lines 35-70): after `go depth N` has been sent, engine lines are read one
 * at a time and folded into a score and a best move, until a `bestmove` line,
 * end of output, or a timeout.
 *
 * The engine's output is the sequence of values `readline()` returns; past
 * its end `readline()` returns "" (end of output). The wall clock is a
 * sequence of booleans, entry k saying whether the timeout check before the
 * k-th read fires; past its end it never fires.
 */
module SearchOutput {
  import opened Wrappers
  import opened PyStr

  /**
   * `eval_score` once set: integer centipawns from a `cp` line (the source
   * divides by 100 when storing it), or the raw token after `mate` (the
   * source stores the string "mate " + token, without checking it is a number).
   */
  datatype Score = Centipawns(cp: int) | MateText(token: string)

  /** The dictionary the function returns: `score` and `best_move`, or `error`. */
  datatype Outcome =
    | Evaluation(score: Option<Score>, bestMove: Option<string>)
    | Failure(error: string)

  const TimeoutError: string := "Stockfish analysis timed out"

  /**
   * The score one engine line sets, if any, independently of the score so
   * far. Only lines containing both "info depth" and "score" set one; "cp"
   * anywhere in the line selects the centipawn branch, and then a token that
   * does not parse sets nothing (the mate branch is not tried).
   */
  function LineScore(line: string): (r: Option<Score>)
    ensures r.Some? ==> Contains(line, "info depth") && Contains(line, "score")
    ensures r.Some? && r.value.Centipawns? ==> Contains(line, "cp")
    ensures r.Some? && r.value.MateText? ==> !Contains(line, "cp") && Contains(line, "mate")
    ensures Contains(line, "cp") && r.Some? ==> r.value.Centipawns?
  {
    if Contains(line, "info depth") && Contains(line, "score") then
      if Contains(line, "cp") then
        match TokenAfter(line, "cp")
        case None => None
        case Some(token) =>
          match ParseInt(token)
          case None => None
          case Some(n) => Some(Centipawns(n))
      else if Contains(line, "mate") then
        match TokenAfter(line, "mate")
        case None => None
        case Some(token) => Some(MateText(token))
      else None
    else None
  }

  /** One update of `eval_score`: a reading with a score replaces it; parse failures leave it. */
  function UpdateScore(score: Option<Score>, r: Reading): Option<Score> {
    if r.score.Some? then r.score else score
  }

  /** `line.split("bestmove")[1].strip().split()[0]`, or None where that raises. */
  function BestMove(line: string): (r: Option<string>)
    ensures r.Some? ==> Contains(line, "bestmove")
  {
    match SplitSecond(line, "bestmove")
    case None => None
    case Some(segment) => FirstToken(Strip(segment))
  }

  /** What one line read means to the loop; it depends on the line alone. */
  datatype Reading = Reading(ends: bool, score: Option<Score>, move: Option<string>)

  /**
   * The loop body's view of one line (lines 46-65): "" is end of output
   * and ends the loop with nothing else done; otherwise the line may set the
   * score, and a line containing "bestmove" ends the loop with its move.
   */
  function Read(line: string): (r: Reading)
    ensures r.ends <==> line == "" || Contains(line, "bestmove")
    ensures r.move.Some? ==> Contains(line, "bestmove")
    ensures r.score == LineScore(line)
  {
    if line == "" then
      assert !Contains(line, "info depth");
      Reading(true, None, None)
    else if Contains(line, "bestmove") then Reading(true, LineScore(line), BestMove(line))
    else Reading(false, LineScore(line), None)
  }

  function Readings(lines: seq<string>): (rs: seq<Reading>)
    ensures |rs| == |lines|
    ensures forall i :: 0 <= i < |lines| ==> rs[i] == Read(lines[i])
  {
    seq(|lines|, i requires 0 <= i < |lines| => Read(lines[i]))
  }

  /** The clock after one timeout check. */
  function Tick(clock: seq<bool>): seq<bool> {
    if |clock| == 0 then [] else clock[1..]
  }

  /**
   * The loop of lines 42-65 and the return of lines 67-70, from the score
   * collected so far: each iteration checks the clock, reads one line, and
   * either stops or folds the line's score in and goes on.
   */
  function Run(rs: seq<Reading>, clock: seq<bool>, score: Option<Score>): (r: Outcome)
    ensures r.Failure? ==> r.error == TimeoutError
    ensures r.Evaluation? && r.bestMove.Some? ==> exists i :: 0 <= i < |rs| && rs[i].move == r.bestMove
    decreases |rs|
  {
    if |clock| > 0 && clock[0] then Failure(TimeoutError)
    else if |rs| == 0 then Evaluation(score, None)
    else
      var next := UpdateScore(score, rs[0]);
      if rs[0].ends then Evaluation(next, rs[0].move)
      else
        var r := Run(rs[1..], Tick(clock), next);
        assert r.Evaluation? && r.bestMove.Some? ==> exists i :: 1 <= i < |rs| && rs[i].move == r.bestMove by {
          if r.Evaluation? && r.bestMove.Some? {
            var i :| 0 <= i < |rs[1..]| && rs[1..][i].move == r.bestMove;
            assert rs[i + 1].move == r.bestMove;
          }
        }
        r
  }

  /** The search-output loop over the engine's lines. */
  function Collect(lines: seq<string>, clock: seq<bool>, score: Option<Score>): Outcome {
    Run(Readings(lines), clock, score)
  }

  // ---------------------------------------------------------------------
  // An independent statement of the loop's result

  /** The index of the first reading that ends the loop, or `|rs|` (end of output) if none does. */
  function StopIndex(rs: seq<Reading>): (k: nat)
    ensures k <= |rs|
    ensures forall i :: 0 <= i < k ==> !rs[i].ends
    ensures k < |rs| ==> rs[k].ends
  {
    if |rs| == 0 || rs[0].ends then 0 else 1 + StopIndex(rs[1..])
  }

  /** The clock fires at one of its first `n` checks. */
  predicate TimeoutWithin(clock: seq<bool>, n: nat) {
    exists k :: 0 <= k < n && k < |clock| && clock[k]
  }

  /** The score of the last reading that carries one, or `init` when none does. */
  function LastScore(rs: seq<Reading>, init: Option<Score>): Option<Score>
    decreases |rs|
  {
    if |rs| == 0 then init
    else if rs[|rs| - 1].score.Some? then rs[|rs| - 1].score
    else LastScore(rs[..|rs| - 1], init)
  }

  /**
   * What the loop returns, stated without iteration: a timeout at any of
   * the checks made before the loop would stop, or else the last score
   * among the lines read and the move of the line that stopped it, if any.
   */
  function Expected(rs: seq<Reading>, clock: seq<bool>, init: Option<Score>): Outcome {
    var stop := StopIndex(rs);
    if TimeoutWithin(clock, stop + 1) then Failure(TimeoutError)
    else if stop < |rs| then Evaluation(LastScore(rs[..stop + 1], init), rs[stop].move)
    else Evaluation(LastScore(rs, init), None)
  }

  // ---------------------------------------------------------------------
  // The loop against `Expected`

  lemma {:induction false} LastScoreCons(x: Reading, ys: seq<Reading>, init: Option<Score>)
    ensures LastScore([x] + ys, init) == LastScore(ys, UpdateScore(init, x))
    decreases |ys|
  {
    if |ys| > 0 {
      var xs := [x] + ys;
      assert xs[|xs| - 1] == ys[|ys| - 1];
      assert xs[..|xs| - 1] == [x] + ys[..|ys| - 1];
      LastScoreCons(x, ys[..|ys| - 1], init);
    } else {
      assert LastScore([x], init) == LastScore([], UpdateScore(init, x));
    }
  }

  lemma TimeoutWithinTick(clock: seq<bool>, n: nat)
    requires !(|clock| > 0 && clock[0])
    ensures TimeoutWithin(clock, n + 1) <==> TimeoutWithin(Tick(clock), n)
  {
    if TimeoutWithin(clock, n + 1) {
      var k :| 0 <= k < n + 1 && k < |clock| && clock[k];
      assert Tick(clock)[k - 1] == clock[k];
    }
    if TimeoutWithin(Tick(clock), n) {
      var k :| 0 <= k < n && k < |Tick(clock)| && Tick(clock)[k];
      assert clock[k + 1] == Tick(clock)[k];
    }
  }

  lemma ExpectedStopsAtFirst(rs: seq<Reading>, clock: seq<bool>, init: Option<Score>)
    requires !(|clock| > 0 && clock[0])
    requires |rs| > 0 && rs[0].ends
    ensures Expected(rs, clock, init) == Evaluation(UpdateScore(init, rs[0]), rs[0].move)
  {
    assert StopIndex(rs) == 0;
    assert !TimeoutWithin(clock, 1);
    assert rs[..1] == [rs[0]];
    LastScoreCons(rs[0], [], init);
  }

  lemma ExpectedStep(rs: seq<Reading>, clock: seq<bool>, init: Option<Score>)
    requires !(|clock| > 0 && clock[0])
    requires |rs| > 0 && !rs[0].ends
    ensures Expected(rs, clock, init) == Expected(rs[1..], Tick(clock), UpdateScore(init, rs[0]))
  {
    var rest := rs[1..];
    var stop := StopIndex(rs);
    var restStop := StopIndex(rest);
    assert stop == restStop + 1;
    TimeoutWithinTick(clock, restStop);
    if stop < |rs| {
      assert rs[..stop + 1] == [rs[0]] + rest[..restStop + 1];
      assert rs[stop] == rest[restStop];
      LastScoreCons(rs[0], rest[..restStop + 1], init);
    } else {
      assert rs == [rs[0]] + rest;
      LastScoreCons(rs[0], rest, init);
    }
  }

  /** The loop computes exactly `Expected`. */
  lemma {:induction false} RunIsExpected(rs: seq<Reading>, clock: seq<bool>, init: Option<Score>)
    ensures Run(rs, clock, init) == Expected(rs, clock, init)
    decreases |rs|
  {
    if |clock| > 0 && clock[0] {
      assert TimeoutWithin(clock, StopIndex(rs) + 1);
    } else if |rs| == 0 {
      assert !TimeoutWithin(clock, 1);
    } else if rs[0].ends {
      ExpectedStopsAtFirst(rs, clock, init);
    } else {
      ExpectedStep(rs, clock, init);
      RunIsExpected(rs[1..], Tick(clock), UpdateScore(init, rs[0]));
    }
  }

  /** The score kept is that of the last reading that carries one. */
  lemma {:induction false} LastScoreIsLast(rs: seq<Reading>, init: Option<Score>, i: nat)
    requires i < |rs| && rs[i].score.Some?
    requires forall j :: i < j < |rs| ==> rs[j].score.None?
    ensures LastScore(rs, init) == rs[i].score
    decreases |rs|
  {
    if i < |rs| - 1 {
      LastScoreIsLast(rs[..|rs| - 1], init, i);
    }
  }

  /** With no reading carrying a score, the initial score survives. */
  lemma {:induction false} LastScoreNone(rs: seq<Reading>, init: Option<Score>)
    requires forall j :: 0 <= j < |rs| ==> rs[j].score.None?
    ensures LastScore(rs, init) == init
    decreases |rs|
  {
    if |rs| > 0 {
      LastScoreNone(rs[..|rs| - 1], init);
    }
  }

  // ---------------------------------------------------------------------
  // Consequences for the engine's lines

  /** The index of the line that stops the loop: the first that is "" or contains "bestmove", else `|lines|`. */
  function StopLine(lines: seq<string>): (k: nat)
    ensures k <= |lines|
    ensures forall i :: 0 <= i < k ==> lines[i] != "" && !Contains(lines[i], "bestmove")
    ensures k < |lines| ==> lines[k] == "" || Contains(lines[k], "bestmove")
  {
    StopIndex(Readings(lines))
  }

  /** The loop over the engine's lines computes exactly `Expected` of their readings. */
  lemma CollectIsExpected(lines: seq<string>, clock: seq<bool>, init: Option<Score>)
    ensures Collect(lines, clock, init) == Expected(Readings(lines), clock, init)
  {
    RunIsExpected(Readings(lines), clock, init);
  }

  /** The loop times out exactly when the clock fires at one of the checks made before it would stop. */
  lemma CollectFailsIff(lines: seq<string>, clock: seq<bool>, init: Option<Score>)
    ensures Collect(lines, clock, init).Failure? <==> TimeoutWithin(clock, StopLine(lines) + 1)
  {
    CollectIsExpected(lines, clock, init);
  }

  /**
   * Without a timeout the move returned is that of the line that stopped the
   * loop, and None when the output ended without a `bestmove` line.
   */
  lemma CollectBestMove(lines: seq<string>, clock: seq<bool>, init: Option<Score>)
    requires !TimeoutWithin(clock, StopLine(lines) + 1)
    ensures Collect(lines, clock, init).Evaluation?
    ensures var stop := StopLine(lines);
      Collect(lines, clock, init).bestMove ==
        if stop < |lines| && lines[stop] != "" then BestMove(lines[stop]) else None
  {
    CollectIsExpected(lines, clock, init);
  }

  /**
   * Without a timeout the score returned is that of the last line read that
   * carries one (the stopping `bestmove` line included).
   */
  lemma RunScore(rs: seq<Reading>, clock: seq<bool>, init: Option<Score>, i: nat)
    requires !TimeoutWithin(clock, StopIndex(rs) + 1)
    requires i <= StopIndex(rs) && i < |rs| && rs[i].score.Some?
    requires forall j :: i < j <= StopIndex(rs) && j < |rs| ==> rs[j].score.None?
    ensures Run(rs, clock, init).Evaluation? && Run(rs, clock, init).score == rs[i].score
  {
    var stop := StopIndex(rs);
    RunIsExpected(rs, clock, init);
    if stop < |rs| {
      LastScoreIsLast(rs[..stop + 1], init, i);
    } else {
      LastScoreIsLast(rs, init, i);
    }
  }

  lemma CollectScore(lines: seq<string>, clock: seq<bool>, init: Option<Score>, i: nat)
    requires !TimeoutWithin(clock, StopLine(lines) + 1)
    requires i <= StopLine(lines) && i < |lines| && LineScore(lines[i]).Some?
    requires forall j :: i < j <= StopLine(lines) && j < |lines| ==> LineScore(lines[j]).None?
    ensures Collect(lines, clock, init).Evaluation? && Collect(lines, clock, init).score == LineScore(lines[i])
  {
    var rs := Readings(lines);
    var stop := StopLine(lines);
    assert StopIndex(rs) == stop;
    assert rs[i].score == LineScore(lines[i]);
    forall j | i < j <= stop && j < |rs|
      ensures rs[j].score.None?
    {
      assert rs[j].score == LineScore(lines[j]);
    }
    RunScore(rs, clock, init, i);
  }

  lemma ReadingsConcat(a: seq<string>, b: seq<string>)
    ensures Readings(a + b) == Readings(a) + Readings(b)
  {
  }

  /** Nothing after the line that stops the loop is read: whatever follows it, the outcome is the same. */
  lemma StopsAtEnd(lines: seq<string>, rest: seq<string>, clock: seq<bool>, init: Option<Score>)
    requires StopLine(lines) < |lines|
    ensures
      var stop := StopLine(lines);
      Collect(lines[..stop + 1] + rest, clock, init) == Collect(lines, clock, init)
  {
    var stop := StopLine(lines);
    var cut := lines[..stop + 1] + rest;
    var rs := Readings(lines);
    var cs := Readings(cut);
    assert forall i :: 0 <= i <= stop ==> cs[i] == rs[i];
    assert StopIndex(cs) == stop;
    assert cs[..stop + 1] == rs[..stop + 1];
    RunIsExpected(rs, clock, init);
    RunIsExpected(cs, clock, init);
  }

  lemma {:induction false} UnscoredIgnored(pre: seq<Reading>, x: Reading, post: seq<Reading>, init: Option<Score>)
    requires !x.ends && x.score.None?
    ensures Run(pre + [x] + post, [], init) == Run(pre + post, [], init)
    decreases |pre|
  {
    if |pre| == 0 {
      assert (pre + [x] + post)[1..] == post && pre + post == post;
    } else if !pre[0].ends {
      assert (pre + [x] + post)[1..] == pre[1..] + [x] + post;
      assert (pre + post)[1..] == pre[1..] + post;
      UnscoredIgnored(pre[1..], x, post, UpdateScore(init, pre[0]));
    }
  }

  /**
   * A line that neither ends the loop nor carries a score (a malformed
   * `info` line, say) changes nothing when no timeout fires: removing it
   * from anywhere in the output gives the same outcome.
   */
  lemma UnscoredLineIgnored(pre: seq<string>, line: string, post: seq<string>, init: Option<Score>)
    requires line != "" && !Contains(line, "bestmove") && LineScore(line).None?
    ensures Collect(pre + [line] + post, [], init) == Collect(pre + post, [], init)
  {
    var x := Read(line);
    assert !x.ends && x.score.None?;
    ReadingsConcat(pre + [line], post);
    ReadingsConcat(pre, [line]);
    ReadingsConcat(pre, post);
    assert Readings([line]) == [x];
    assert Readings(pre + [line] + post) == Readings(pre) + [x] + Readings(post);
    UnscoredIgnored(Readings(pre), x, Readings(post), init);
  }

  // ---------------------------------------------------------------------
  // Reading back well-formed engine lines

  lemma BestMoveIsTokenAfter(line: string)
    ensures BestMove(line) == TokenAfter(line, "bestmove")
  {
    match SplitSecond(line, "bestmove")
    case None =>
    case Some(segment) => StripKeepsFirstToken(segment);
  }

  /** A move read from a `bestmove` line is a non-empty run without whitespace. */
  lemma BestMoveIsToken(line: string)
    ensures BestMove(line).Some? ==> |BestMove(line).value| > 0 && NoSpace(BestMove(line).value)
  {
    BestMoveIsTokenAfter(line);
    TokenAfterIsToken(line, "bestmove");
  }

  /** A mate score read from an info line is a non-empty run without whitespace. */
  lemma MateTokenIsToken(line: string)
    ensures LineScore(line).Some? && LineScore(line).value.MateText? ==>
      |LineScore(line).value.token| > 0 && NoSpace(LineScore(line).value.token)
  {
    TokenAfterIsToken(line, "mate");
  }

  lemma DecimalTextHasNoC(n: int)
    ensures !Contains(DecimalText(n), "cp")
  {
    DecimalTextChars(n);
    NoStartNoContains(DecimalText(n), "cp");
  }

  /**
   * An info line whose first "cp" is followed by an integer: the line sets
   * the score to that many centipawns. `pre` holds "info depth" and "score"
   * and no "cp"; the requires is written in the `FindAfterPrefix` shape,
   * which for "cp" amounts to just that.
   */
  lemma CentipawnLineRoundTrip(pre: string, n: int, tail: string)
    requires Contains(pre, "info depth") && Contains(pre, "score")
    requires !Contains(pre + "c", "cp")
    requires tail == [] || IsSpace(tail[0])
    ensures LineScore(pre + "cp" + " " + DecimalText(n) + tail) == Some(Centipawns(n))
  {
    var line := pre + "cp" + " " + DecimalText(n) + tail;
    var after := "cp" + " " + DecimalText(n) + tail;
    assert line == pre + after;
    ContainsExtend(pre, "info depth", after);
    ContainsExtend(pre, "score", after);
    assert "cp"[..1] == "c";
    DecimalTextHasNoC(n);
    DecimalTextIsToken(n);
    TokenAfterRoundTrip(pre, "cp", DecimalText(n), tail);
    ParseDecimalText(n);
  }

  /**
   * An info line without "cp" whose first "mate" is followed by a token:
   * the line sets the mate score to that raw token, numeric or not.
   */
  lemma MateLineRoundTrip(pre: string, token: string, tail: string)
    requires Contains(pre, "info depth") && Contains(pre, "score")
    requires !Contains(pre + "mat", "mate")
    requires |token| > 0 && NoSpace(token) && !Contains(token, "mate")
    requires tail == [] || IsSpace(tail[0])
    requires !Contains(pre + "mate" + " " + token + tail, "cp")
    ensures LineScore(pre + "mate" + " " + token + tail) == Some(MateText(token))
  {
    var line := pre + "mate" + " " + token + tail;
    var after := "mate" + " " + token + tail;
    assert line == pre + after;
    ContainsExtend(pre, "info depth", after);
    ContainsExtend(pre, "score", after);
    assert "mate"[..3] == "mat";
    TokenAfterRoundTrip(pre, "mate", token, tail);
  }

  /** A `bestmove` line reads back the move written after the keyword. */
  lemma BestMoveLineRoundTrip(pre: string, move: string, tail: string)
    requires !Contains(pre + "bestmov", "bestmove")
    requires |move| > 0 && NoSpace(move) && !Contains(move, "bestmove")
    requires tail == [] || IsSpace(tail[0])
    ensures BestMove(pre + "bestmove" + " " + move + tail) == Some(move)
  {
    assert "bestmove"[..7] == "bestmov";
    TokenAfterRoundTrip(pre, "bestmove", move, tail);
    BestMoveIsTokenAfter(pre + "bestmove" + " " + move + tail);
  }
}
