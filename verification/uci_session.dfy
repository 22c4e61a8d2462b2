/**
 * One call of `analyze_with_stockfish` (app/utils/stockfish.py, lines 9-70)
 * as a conversation with the engine over UCI: the commands written to the
 * engine's standard input, the bounded wait for `readyok`, and the search
 * loop that reads the rest of the engine's output.
 *
 * Starting the process, the pipes and the clock are outside the model: the
 * engine's output is the sequence of lines `readline()` returns (and "" for
 * ever after it), and the clock is the timeout oracle of the search loop.
 */
module UciSession {
  import opened Wrappers
  import opened PyStr
  import opened SearchOutput

  const DefaultDepth: int := 15
  const DefaultTimeout: int := 10

  /** The UCI commands the function sends, in order. */
  function Commands(fen: string, depth: int): seq<string> {
    ["uci", "isready", "position fen " + fen, "go depth " + DecimalText(depth)]
  }

  /** Commands as written to a pipe: each followed by a newline. */
  function Terminated(cmds: seq<string>): string
  {
    if |cmds| == 0 then "" else cmds[0] + "\n" + Terminated(cmds[1..])
  }

  /** The text of the three `stdin.write` calls, in program order (lines 23, 31, 32). */
  function StdinText(fen: string, depth: int): string {
    "uci\nisready\n" + ("position fen " + fen + "\n") + ("go depth " + DecimalText(depth) + "\n")
  }

  /** How the engine cuts its standard input into command lines. */
  function Lines(text: string): seq<string>
    decreases |text|
  {
    if text == "" then []
    else
      match Find(text, "\n")
      case None => [text]
      case Some(i) => [text[..i]] + Lines(text[i + 1..])
  }

  predicate NoNewline(s: string) {
    forall i :: 0 <= i < |s| ==> s[i] != '\n'
  }

  /** What is written is exactly the four commands, each terminated, in order. */
  lemma StdinIsCommands(fen: string, depth: int)
    ensures StdinText(fen, depth) == Terminated(Commands(fen, depth))
  {
    var c := Commands(fen, depth);
    assert Terminated(c[3..]) == c[3] + "\n";
    assert Terminated(c[2..]) == c[2] + "\n" + Terminated(c[3..]);
    assert Terminated(c[1..]) == c[1] + "\n" + Terminated(c[2..]);
  }

  /** Splitting terminated commands at newlines gives the commands back. */
  lemma {:induction false} LinesOfTerminated(cmds: seq<string>)
    requires forall k :: 0 <= k < |cmds| ==> NoNewline(cmds[k])
    ensures Lines(Terminated(cmds)) == cmds
    decreases |cmds|
  {
    if |cmds| > 0 {
      var rest := Terminated(cmds[1..]);
      var text := cmds[0] + "\n" + rest;
      assert "\n"[..0] == "";
      assert cmds[0] + "" == cmds[0];
      NoStartNoContains(cmds[0], "\n");
      FindAfterPrefix(cmds[0], "\n", rest);
      assert text[..|cmds[0]|] == cmds[0];
      assert text[|cmds[0]| + 1..] == rest;
      LinesOfTerminated(cmds[1..]);
    }
  }

  /**
   * The engine receives exactly the four commands when the position has no
   * newline (one that has would split the `position` command in two).
   */
  lemma EngineReadsCommands(fen: string, depth: int)
    requires NoNewline(fen)
    ensures Lines(StdinText(fen, depth)) == Commands(fen, depth)
  {
    var c := Commands(fen, depth);
    assert NoNewline(c[2]) by {
      forall i | 0 <= i < |c[2]|
        ensures c[2][i] != '\n'
      {
        if i >= |"position fen "| {
          assert c[2][i] == fen[i - |"position fen "|];
        }
      }
    }
    assert NoNewline(c[3]) by {
      DecimalTextChars(depth);
      forall i | 0 <= i < |c[3]|
        ensures c[3][i] != '\n'
      {
        if i >= |"go depth "| {
          assert c[3][i] == DecimalText(depth)[i - |"go depth "|];
        }
      }
    }
    StdinIsCommands(fen, depth);
    LinesOfTerminated(c);
  }

  // ---------------------------------------------------------------------
  // The handshake

  /**
   * The wait for `readyok` (lines 26-29): the number of the engine's lines it
   * consumes. At most `budget` reads are made, the loop stops after the
   * first line containing "readyok", and running out of reads is no error.
   * Reads past the end of output return "" and consume nothing.
   */
  function ReadyWait(lines: seq<string>, budget: int): (n: nat)
    ensures n <= |lines| && n <= if budget < 0 then 0 else budget
    decreases |lines|
  {
    if budget <= 0 || |lines| == 0 then 0
    else if Contains(lines[0], "readyok") then 1
    else 1 + ReadyWait(lines[1..], budget - 1)
  }

  /** A `readyok` within the budget: the wait consumes up to and including the first one. */
  lemma {:induction false} ReadyWaitFirst(lines: seq<string>, budget: int, k: nat)
    requires k < |lines| && k < budget
    requires Contains(lines[k], "readyok")
    requires forall i :: 0 <= i < k ==> !Contains(lines[i], "readyok")
    ensures ReadyWait(lines, budget) == k + 1
    decreases k
  {
    if k > 0 {
      assert !Contains(lines[0], "readyok");
      ReadyWaitFirst(lines[1..], budget - 1, k - 1);
    }
  }

  /** No `readyok` within the budget: the wait uses up the budget, or the output, and goes on. */
  lemma {:induction false} ReadyWaitExhausted(lines: seq<string>, budget: int)
    requires forall i :: 0 <= i < |lines| && i < budget ==> !Contains(lines[i], "readyok")
    ensures ReadyWait(lines, budget) == if budget < 0 then 0 else if budget < |lines| then budget else |lines|
    decreases |lines|
  {
    if budget > 0 && |lines| > 0 {
      assert !Contains(lines[0], "readyok");
      ReadyWaitExhausted(lines[1..], budget - 1);
    }
  }

  // ---------------------------------------------------------------------
  // The whole call

  /** What one call writes to the engine and what it returns. */
  datatype Exchange = Exchange(stdin: string, outcome: Outcome)

  /**
   * `analyze_with_stockfish(fen, depth, timeout)` against an engine whose
   * output is `engine` and a clock `clock` for the search loop: the
   * handshake consumes its lines, then the search loop reads from the next
   * one with no score yet.
   */
  function Analyze(fen: string, depth: int, timeout: int, engine: seq<string>, clock: seq<bool>): Exchange
  {
    var n := ReadyWait(engine, timeout * 10);
    Exchange(StdinText(fen, depth), Collect(engine[n..], clock, None))
  }

  /** The call with its default arguments, `depth=15` and `timeout=10`. */
  function AnalyzeDefault(fen: string, engine: seq<string>, clock: seq<bool>): Exchange {
    Analyze(fen, DefaultDepth, DefaultTimeout, engine, clock)
  }

  /**
   * Whatever the engine answers, the call writes the same four commands; the
   * engine's output and the clock decide only the outcome.
   */
  lemma AnalyzeWritesCommands(fen: string, depth: int, timeout: int, engine: seq<string>, clock: seq<bool>)
    requires NoNewline(fen)
    ensures Lines(Analyze(fen, depth, timeout, engine, clock).stdin) == Commands(fen, depth)
  {
    EngineReadsCommands(fen, depth);
  }

  /** The search loop starts right after the first `readyok` when one comes within `timeout * 10` lines. */
  lemma AnalyzeAfterReadyok(fen: string, depth: int, timeout: int, engine: seq<string>, clock: seq<bool>, k: nat)
    requires k < |engine| && k < timeout * 10
    requires Contains(engine[k], "readyok")
    requires forall i :: 0 <= i < k ==> !Contains(engine[i], "readyok")
    ensures Analyze(fen, depth, timeout, engine, clock).outcome == Collect(engine[k + 1..], clock, None)
  {
    ReadyWaitFirst(engine, timeout * 10, k);
    var n := ReadyWait(engine, timeout * 10);
    assert engine[n..] == engine[k + 1..];
  }

  /**
   * Without a `readyok` in the first `timeout * 10` lines the call is not
   * an error: the search loop reads whatever follows those lines.
   */
  lemma AnalyzeWithoutReadyok(fen: string, depth: int, timeout: int, engine: seq<string>, clock: seq<bool>)
    requires timeout >= 0
    requires forall i :: 0 <= i < |engine| && i < timeout * 10 ==> !Contains(engine[i], "readyok")
    ensures var skipped := if timeout * 10 < |engine| then timeout * 10 else |engine|;
      Analyze(fen, depth, timeout, engine, clock).outcome == Collect(engine[skipped..], clock, None)
  {
    ReadyWaitExhausted(engine, timeout * 10);
    var n := ReadyWait(engine, timeout * 10);
    assert n == if timeout * 10 < |engine| then timeout * 10 else |engine|;
  }

  /** A call times out, and then reports only the timeout, exactly when the clock fires before the search loop stops. */
  lemma AnalyzeFailsIff(fen: string, depth: int, timeout: int, engine: seq<string>, clock: seq<bool>)
    ensures var rest := engine[ReadyWait(engine, timeout * 10)..];
      && (Analyze(fen, depth, timeout, engine, clock).outcome.Failure? <==> TimeoutWithin(clock, StopLine(rest) + 1))
      && (Analyze(fen, depth, timeout, engine, clock).outcome.Failure? ==>
            Analyze(fen, depth, timeout, engine, clock).outcome == Failure(TimeoutError))
  {
    var rest := engine[ReadyWait(engine, timeout * 10)..];
    CollectFailsIff(rest, clock, None);
  }

  // ---------------------------------------------------------------------
  // One exchange, end to end
  //
  // The examples take their literal lines as parameters fixed by `requires`
  // rather than writing the literals into the statement: the prover then
  // works on one opaque name per line instead of re-evaluating the string
  // operations on each literal occurrence, which keeps each proof small.

  /** No 'c' in `s` is followed by a 'p', so `s` does not contain "cp". */
  lemma NoCp(s: string)
    requires forall i :: 0 <= i < |s| - 1 && s[i] == 'c' ==> s[i + 1] != 'p'
    ensures !Contains(s, "cp")
  {
    forall i: nat
      ensures !OccursAt(s, "cp", i)
    {
      if i + 2 <= |s| {
        assert s[i..i + 2][0] == s[i] && s[i..i + 2][1] == s[i + 1];
      }
    }
    ContainsIff(s, "cp");
  }

  lemma ExamplePrefix(pre: string)
    requires pre == "info depth 1 score "
    ensures Contains(pre, "info depth") && Contains(pre, "score") && !Contains(pre + "c", "cp")
  {
    assert OccursAt(pre, "info depth", 0);
    ContainsWitness(pre, "info depth", 0);
    assert OccursAt(pre, "score", 13);
    ContainsWitness(pre, "score", 13);
    NoCp(pre + "c");
  }

  lemma ExampleInfoScore(info: string)
    requires info == "info depth 1 score cp 20\n"
    ensures LineScore(info) == Some(Centipawns(20))
  {
    var pre := info[..19];
    ExamplePrefix(pre);
    var twenty := DecimalText(20);
    assert twenty == "20";
    assert info == pre + "cp" + " " + twenty + "\n";
    CentipawnLineRoundTrip(pre, 20, "\n");
  }

  lemma ExampleNoBestmove(info: string)
    requires info == "info depth 1 score cp 20\n"
    ensures !Contains(info, "bestmove")
  {
    NoStartNoContains(info, "bestmove");
  }

  /** An info line with a centipawn score sets it and goes on. */
  lemma ExampleInfoLine(info: string)
    requires info == "info depth 1 score cp 20\n"
    ensures Read(info) == Reading(false, Some(Centipawns(20)), None)
  {
    ExampleInfoScore(info);
    ExampleNoBestmove(info);
    assert |info| > 0;
  }

  /** A `bestmove` line ends the loop with its move. */
  lemma ExampleBestMoveLine(best: string)
    requires best == "bestmove e2e4\n"
    ensures Read(best) == Reading(true, None, Some("e2e4"))
  {
    assert OccursAt(best, "bestmove", 0);
    ContainsWitness(best, "bestmove", 0);
    NoStartNoContains(best, "info depth");
    assert "" + "bestmove" + " " + "e2e4" + "\n" == best;
    BestMoveLineRoundTrip("", "e2e4", "\n");
  }

  lemma ExampleHandshake(engine: seq<string>)
    requires engine == ["readyok\n", "info depth 1 score cp 20\n", "bestmove e2e4\n"]
    ensures ReadyWait(engine, DefaultTimeout * 10) == 1
  {
    assert OccursAt(engine[0], "readyok", 0);
    ContainsWitness(engine[0], "readyok", 0);
    ReadyWaitFirst(engine, DefaultTimeout * 10, 0);
  }

  /** A scored line and then a `bestmove` line: the loop returns both. */
  lemma ExampleSearch(rs: seq<Reading>)
    requires rs == [Reading(false, Some(Centipawns(20)), None), Reading(true, None, Some("e2e4"))]
    ensures Run(rs, [], None) == Evaluation(Some(Centipawns(20)), Some("e2e4"))
  {
    var score := Some(Centipawns(20));
    assert rs[1..] == [rs[1]];
    assert Run(rs[1..], [], score) == Evaluation(score, Some("e2e4"));
    assert Tick([]) == [];
    assert Run(rs, [], None) == Run(rs[1..], [], score);
  }

  /**
   * An engine that answers the handshake, reports one score of +20
   * centipawns and then its best move: with the default arguments and no
   * timeout, the call returns that score and that move.
   */
  lemma ExampleExchange(fen: string, engine: seq<string>)
    requires engine == ["readyok\n", "info depth 1 score cp 20\n", "bestmove e2e4\n"]
    ensures AnalyzeDefault(fen, engine, []).outcome == Evaluation(Some(Centipawns(20)), Some("e2e4"))
  {
    ExampleHandshake(engine);
    ExampleSearchLines(engine[1..]);
  }

  /** The search part of the exchange: the two lines after `readyok`. */
  lemma ExampleSearchLines(lines: seq<string>)
    requires lines == ["info depth 1 score cp 20\n", "bestmove e2e4\n"]
    ensures Collect(lines, [], None) == Evaluation(Some(Centipawns(20)), Some("e2e4"))
  {
    ExampleInfoLine(lines[0]);
    ExampleBestMoveLine(lines[1]);
    ReadingsOfTwo(lines);
    ExampleSearch(Readings(lines));
  }

  lemma ReadingsOfTwo(lines: seq<string>)
    requires |lines| == 2
    ensures Readings(lines) == [Read(lines[0]), Read(lines[1])]
  {
  }
}
