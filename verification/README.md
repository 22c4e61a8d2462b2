# A verified model of the engine analysis and game viewer cores

This project models two pieces of a small chess-review web application.

- **The Stockfish bridge.** `analyze_with_stockfish` in `app/utils/stockfish.py` sends one position to a UCI chess engine and returns the engine's evaluation and best move. The engine is Stockfish, driven over its standard input and output.
- **The viewer.** The client-side state of the game viewer in `app/static/js/main.js`.

The model is written in Dafny 4.11, in five modules.

- `Wrappers` (`wrappers.dfy`) holds `Option`.
- `PyStr` (`pystr.dfy`) holds the Python string operations the bridge relies on, with Python's own semantics:
  - substring membership `t in s`;
  - `s.split(sep)[1]`;
  - `s.split()[0]`;
  - `s.strip()`;
  - `int(s)`;
  - `str(n)`.
  `split` and `int` can raise. Each raise is an explicit `None`, which the caller's `try` turns into "no change".
- `SearchOutput` (`search_output.dfy`) is the search loop (lines 35-70):
  - `LineScore` and `BestMove` say what one engine line means.
  - `Read` is the loop body's view of a line.
  - `Run` and `Collect` are the loop itself.
  - `Expected` states the loop's result without iteration: the last score among the lines read, the move of the `bestmove` line that stopped the loop, or the timeout error.
- `UciSession` (`uci_session.dfy`) covers the whole call:
  - `Commands` and `StdinText` are what is written to the engine.
  - `ReadyWait` is the bounded wait for `readyok` (lines 26-29).
  - `Analyze` and `AnalyzeDefault` are the call itself, against a given engine output and clock.
- `Viewer` (`viewer.dfy`) covers the page state and its handlers:
  - the state is the move list and index, the previous evaluation, and the per-colour blunder and inaccuracy counters and accuracies;
  - `NextMove`, `PrevMove`, `LoadGame` and `OnEvaluation` are the handlers;
  - `EvalBarPercent` is the evaluation bar;
  - `AveragePercent` is the accuracy table;
  - `PieceGlyph` is `pieceUnicode`;
  - `Steps` runs any sequence of these events.

Conventions:

- **Engine output.** It is the sequence of strings `readline()` returns, newline included. Past the end, `readline()` returns `""`, which the loop reads as end of output.
- **Clock.** The wall clock of the search loop is a sequence of booleans. Entry k says whether the check `time.time() - start_time > timeout` before the k-th read fires. Past its end, it never fires.
- **Scores.** A centipawn score is kept as the integer the engine printed (`Centipawns`). The source stores that integer divided by 100 as a float. A mate score is kept as the raw token after `mate` (`MateText`). The source stores the string `"mate " + token`, and the token need not be a number.
- **The side to move.** chess.js reports the side to move (`game.turn()`) when an evaluation arrives. It is a parameter of `OnEvaluation`.
- **Score units in the viewer.** The viewer's handlers take the score in whatever unit the reply carries, and the model states its thresholds unit-free ("a change over 2", "between -10 and 10"). The comment at `main.js` line 42 says the score is in centipawns. In that unit the bar is already full or empty at ±10 centipawns, and a swing of more than 2 centipawns counts as a blunder.
- **What the bridge code does.** Several behaviours follow from the code alone and are modelled as written:
  - An empty FEN is not rejected; it is sent to the engine like any other.
  - A missing `readyok` is not an error. The handshake gives up after `timeout * 10` lines and the analysis goes on (`UciSession.AnalyzeWithoutReadyok`).
  - `uciok` is never waited for.
  - The timeout is checked only between reads, so it cannot interrupt a blocking `readline()`.
  - The outer `except` handler (line 71-72) ends in a stray `1`. As written, that line is a Python syntax error.

## Model

| member | source | states |
|---|---|---|
| `PyStr.IsSpace` | app/utils/stockfish.py:52 | the characters Python's `str.isspace` accepts, which `split()` (lines 52, 57, 62) and `strip()` (line 62) skip; the lemmas on `LeadingSpace`, `WordLength` and `TrailingSpace` state what is skipped |
| `PyStr.Find` | app/utils/stockfish.py:49 | `s.find(t)`: an answered index leaves room for the pattern inside `s`; `PyStr.FindIsFirst` states that it is the first occurrence and that `None` means none |
| `PyStr.FindFrom` | app/utils/stockfish.py:49 | the forward scan from index `k`: an answer lies at or after `k` and leaves room for the pattern; `PyStr.FindFromIsFirst` states that it is the first such occurrence |
| `PyStr.FindIsFirst` | app/utils/stockfish.py:49 | `Find` answers the first index at which the pattern occurs, and `None` exactly when it occurs nowhere; this is Python's `in` |
| `PyStr.FindFromIsFirst` | app/utils/stockfish.py:49 | the forward scan from index `k` answers the first occurrence at or after `k`, and `None` exactly when there is none from `k` on |
| `PyStr.Contains` | app/utils/stockfish.py:49-50 | Python's `t in s`; `PyStr.ContainsIff` states it holds exactly when `t` occurs at some index |
| `PyStr.ContainsIff` | app/utils/stockfish.py:49-50 | `t in s` holds exactly when `t` occurs at some index of `s` |
| `PyStr.ContainsExtend` | app/utils/stockfish.py:49-50 | a substring stays a substring when text is appended |
| `PyStr.NoStartNoContains` | app/utils/stockfish.py:60 | text with no character equal to the pattern's first one does not contain the pattern |
| `PyStr.FindAfterPrefix` | app/utils/stockfish.py:52 | when the separator does not occur before a prefix ends, its first occurrence is right after that prefix |
| `PyStr.SplitSecond` | app/utils/stockfish.py:52 | `s.split(sep)[1]`, with `None` for the IndexError when `sep` does not occur; `PyStr.SplitSecondIsBetween` states where the piece lies |
| `PyStr.SplitSecondIsBetween` | app/utils/stockfish.py:52 | `s.split(sep)[1]` exists exactly when `sep` occurs, starts right after its first occurrence, holds no `sep`, and ends at the next occurrence or the end of `s` |
| `PyStr.SplitSecondToNext` | app/utils/stockfish.py:52 | when `sep` occurs a second time, `split(sep)[1]` is the text between the two occurrences and holds no `sep` |
| `PyStr.SplitSecondToEnd` | app/utils/stockfish.py:52 | when `sep` occurs only once, `split(sep)[1]` is everything after it and holds no `sep` |
| `PyStr.BeforeFirstIsFree` | app/utils/stockfish.py:52 | the text before the first occurrence of a non-empty pattern does not contain it |
| `PyStr.LeadingSpace` | app/utils/stockfish.py:62 | the length of the leading whitespace, at most the length of `s`; `PyStr.LeadingSpaceIsMaximal` states that it is the longest all-whitespace prefix |
| `PyStr.LeadingSpaceIsMaximal` | app/utils/stockfish.py:62 | the leading whitespace `strip()` and `split()` skip is the longest all-whitespace prefix |
| `PyStr.TrailingSpace` | app/utils/stockfish.py:62 | the length of the trailing whitespace, at most the length of `s`; `PyStr.TrailingSpaceIsMaximal` states that it is the longest all-whitespace suffix |
| `PyStr.TrailingSpaceIsMaximal` | app/utils/stockfish.py:62 | the trailing whitespace `strip()` removes is the longest all-whitespace suffix |
| `PyStr.WordLength` | app/utils/stockfish.py:52 | the length of a token, at most the length of `s`; `PyStr.WordLengthIsMaximal` states that it runs to the first whitespace |
| `PyStr.WordLengthIsMaximal` | app/utils/stockfish.py:52 | a token runs up to the first whitespace character or the end |
| `PyStr.WordLengthUnique` | app/utils/stockfish.py:52 | a prefix without whitespace that whitespace or the end follows is exactly the token |
| `PyStr.FirstToken` | app/utils/stockfish.py:52 | `s.split()[0]`, with `None` for the IndexError on blank text; `PyStr.FirstTokenIsFirstWord` states what it answers |
| `PyStr.FirstTokenIsFirstWord` | app/utils/stockfish.py:52 | `s.split()[0]` raises exactly on blank text; otherwise it is the non-empty whitespace-free run after the leading whitespace, ended by whitespace or the end |
| `PyStr.FirstTokenBlank` | app/utils/stockfish.py:52 | `s.split()[0]` raises exactly when `s` is all whitespace |
| `PyStr.FirstTokenShape` | app/utils/stockfish.py:52 | a token `split()[0]` answers is non-empty, whitespace-free, follows the leading whitespace and is followed by whitespace or the end |
| `PyStr.Strip` | app/utils/stockfish.py:62 | `s.strip()`; `PyStr.StripIsCore` states that it is the whitespace-trimmed core of `s` |
| `PyStr.StripIsCore` | app/utils/stockfish.py:62 | `s.strip()` is the part of `s` between its leading and trailing whitespace and neither starts nor ends with whitespace |
| `PyStr.StripIsSlice` | app/utils/stockfish.py:62 | `s.strip()` is the slice of `s` starting after its leading whitespace |
| `PyStr.StripDropsSpace` | app/utils/stockfish.py:62 | what `strip()` removes on either side is whitespace only |
| `PyStr.StripEndsInText` | app/utils/stockfish.py:62 | a non-empty `strip()` result neither starts nor ends with whitespace |
| `PyStr.FirstTokenOf` | app/utils/stockfish.py:52 | whitespace, then a token, then whitespace or the end: `split()[0]` is that token |
| `PyStr.StripKeepsFirstToken` | app/utils/stockfish.py:62 | `s.strip().split()[0]` equals `s.split()[0]`, raises included |
| `PyStr.TokenAfter` | app/utils/stockfish.py:52-57 | `s.split(sep)[1].split()[0]`, with `None` for either IndexError; `PyStr.TokenAfterIsToken` and `PyStr.TokenAfterRoundTrip` state what it reads |
| `PyStr.TokenAfterIsToken` | app/utils/stockfish.py:52-57 | the token read after a keyword is non-empty, has no whitespace, and the keyword is in the line |
| `PyStr.NoEarlyOccurrence` | app/utils/stockfish.py:52-57 | after one space, a separator without whitespace cannot start inside a token free of it |
| `PyStr.TokenAfterRoundTrip` | app/utils/stockfish.py:52-57 | writing `sep + " " + tok` after text where `sep` does not occur earlier, `split(sep)[1].split()[0]` reads back `tok` |
| `PyStr.DigitChar` | app/utils/stockfish.py:32 | the character of a decimal digit is an ASCII digit whose value is that digit |
| `PyStr.DigitRun` | app/utils/stockfish.py:52 | the bodies of base-10 literals `int()` accepts: digits with single underscores between them; `PyStr.DigitsValueOfDigits` states that every decimal rendering is one |
| `PyStr.DigitsValue` | app/utils/stockfish.py:52 | the value of such a literal, underscores being separators; `PyStr.DigitsValueOfDigits` states that the digits of `n` are worth `n` |
| `PyStr.ParseInt` | app/utils/stockfish.py:52 | `int(s)`: surrounding whitespace, an optional sign, then a digit literal, with `None` for the ValueError; U+001C..U+001F anywhere make it raise, although `strip()` would skip them; `PyStr.ParseDecimalText` states that it inverts `str(n)` |
| `PyStr.ParseIntRejectsSeparatorControl` | app/utils/stockfish.py:52 | `"\x1c5".strip()` is `"5"`, yet `int("\x1c5")` raises |
| `PyStr.Digits` | app/utils/stockfish.py:32 | the decimal digits of a natural number; `PyStr.DigitsValueOfDigits` states that they are digits worth that number |
| `PyStr.DecimalText` | app/utils/stockfish.py:32 | `str(n)` for an integer; `PyStr.DecimalTextChars`, `PyStr.DecimalTextIsToken` and `PyStr.ParseDecimalText` state its shape and that `int()` reads it back |
| `PyStr.DigitsValueOfDigits` | app/utils/stockfish.py:52 | the decimal digits of `n` form a digit literal worth `n` |
| `PyStr.DecimalTextChars` | app/utils/stockfish.py:32 | `str(n)` is digits only, after a minus sign for negatives |
| `PyStr.DecimalTextIsToken` | app/utils/stockfish.py:32 | `str(n)` is a non-empty run without whitespace |
| `PyStr.StripNoSpace` | app/utils/stockfish.py:52 | `strip()` leaves text without whitespace unchanged |
| `PyStr.ParseDecimalText` | app/utils/stockfish.py:52 | `int(str(n)) == n` for every integer `n` |
| `SearchOutput.LineScore` | app/utils/stockfish.py:49-59 | a score is set only by lines containing "info depth" and "score"; a line containing "cp" never yields a mate score; a mate score needs "mate" and no "cp" |
| `SearchOutput.BestMove` | app/utils/stockfish.py:60-64 | a move is read only from a line containing "bestmove" |
| `SearchOutput.UpdateScore` | app/utils/stockfish.py:49-59 | one update of `eval_score`: a line that sets a score replaces it, and any other line keeps it; `SearchOutput.LastScoreIsLast` states the result of the fold |
| `SearchOutput.Read` | app/utils/stockfish.py:45-65 | a line ends the loop exactly when it is end of output or contains "bestmove"; only such a line carries a move; its score is the line's own |
| `SearchOutput.Readings` | app/utils/stockfish.py:45-65 | one reading per engine line, each the loop body's view of that line; `SearchOutput.ReadingsConcat` states that lines are read independently |
| `SearchOutput.Tick` | app/utils/stockfish.py:43 | the clock after one timeout check; `SearchOutput.TimeoutWithinTick` states how it shifts the checks |
| `SearchOutput.Run` | app/utils/stockfish.py:42-70 | the only error the loop returns is the timeout message, and any move returned is one a line carried |
| `SearchOutput.Collect` | app/utils/stockfish.py:42-70 | the search loop over the engine's lines; `SearchOutput.CollectIsExpected` states its result without iteration |
| `SearchOutput.StopIndex` | app/utils/stockfish.py:46-47 | the loop stops at the first reading that ends it, or runs to the end of output |
| `SearchOutput.TimeoutWithin` | app/utils/stockfish.py:43-44 | the clock fires at one of the first `n` checks; `SearchOutput.CollectFailsIff` states that this is exactly when the loop times out |
| `SearchOutput.LastScore` | app/utils/stockfish.py:49-59 | the score of the last reading that carries one; `SearchOutput.LastScoreIsLast` and `SearchOutput.LastScoreNone` state it |
| `SearchOutput.Expected` | app/utils/stockfish.py:42-70 | the loop's result stated without iteration; `SearchOutput.RunIsExpected` states that the loop computes it |
| `SearchOutput.StopLine` | app/utils/stockfish.py:46-65 | the line that stops the loop is the first that is end of output or contains "bestmove" |
| `SearchOutput.LastScoreCons` | app/utils/stockfish.py:49-59 | folding the first line's score in and then taking the last score of the rest is taking the last score of all |
| `SearchOutput.TimeoutWithinTick` | app/utils/stockfish.py:43-44 | a timeout at one of the first n+1 checks, with the first check passed, is a timeout at one of the next n |
| `SearchOutput.ExpectedStopsAtFirst` | app/utils/stockfish.py:60-65 | a first line that ends the loop gives its own score update and move |
| `SearchOutput.ExpectedStep` | app/utils/stockfish.py:42-59 | a line that does not end the loop only folds its score in |
| `SearchOutput.RunIsExpected` | app/utils/stockfish.py:42-70 | the loop returns exactly the timeout error if the clock fires before it stops, and otherwise the last score among the lines read and the stopping line's move |
| `SearchOutput.LastScoreIsLast` | app/utils/stockfish.py:49-59 | the score kept is that of the last reading carrying one |
| `SearchOutput.LastScoreNone` | app/utils/stockfish.py:37 | with no reading carrying a score, the initial score survives |
| `SearchOutput.CollectIsExpected` | app/utils/stockfish.py:42-70 | on the engine's lines, the loop computes `Expected` of their readings |
| `SearchOutput.CollectFailsIff` | app/utils/stockfish.py:43-44 | the loop times out exactly when the clock fires at one of the checks made before it would stop |
| `SearchOutput.CollectBestMove` | app/utils/stockfish.py:36-65 | without a timeout, the move is that of the stopping `bestmove` line, and None when output ended first |
| `SearchOutput.RunScore` | app/utils/stockfish.py:49-70 | without a timeout, the score returned is that of the last reading before or at the stop that carries one |
| `SearchOutput.CollectScore` | app/utils/stockfish.py:49-70 | without a timeout, the score returned is that of the last line read that sets one, the stopping `bestmove` line included |
| `SearchOutput.ReadingsConcat` | app/utils/stockfish.py:45 | each line is read on its own, so the readings of joined outputs are the joined readings |
| `SearchOutput.StopsAtEnd` | app/utils/stockfish.py:60-65 | nothing after the stopping line is read: whatever follows it, the outcome is the same |
| `SearchOutput.UnscoredIgnored` | app/utils/stockfish.py:49-59 | a reading that neither stops the loop nor carries a score can be removed without changing the outcome |
| `SearchOutput.UnscoredLineIgnored` | app/utils/stockfish.py:49-59 | a malformed or unscored line never aborts the loop and changes nothing |
| `SearchOutput.BestMoveIsTokenAfter` | app/utils/stockfish.py:62 | `split("bestmove")[1].strip().split()[0]` is the first token after "bestmove" |
| `SearchOutput.BestMoveIsToken` | app/utils/stockfish.py:62 | a best move read is a non-empty run without whitespace |
| `SearchOutput.MateTokenIsToken` | app/utils/stockfish.py:57 | a mate score keeps a non-empty raw token without whitespace |
| `SearchOutput.DecimalTextHasNoC` | app/utils/stockfish.py:50 | the decimal text of a number never contains "cp" |
| `SearchOutput.CentipawnLineRoundTrip` | app/utils/stockfish.py:49-54 | an info line whose first "cp" is followed by an integer sets the score to that many centipawns |
| `SearchOutput.MateLineRoundTrip` | app/utils/stockfish.py:55-59 | an info line without "cp" whose first "mate" is followed by any token sets the mate score to that raw token |
| `SearchOutput.BestMoveLineRoundTrip` | app/utils/stockfish.py:60-64 | a `bestmove` line reads back the move written after the keyword |
| `UciSession.Commands` | app/utils/stockfish.py:23-32 | the four UCI commands in order: `uci`, `isready`, `position fen`, `go depth`; `UciSession.StdinIsCommands` states that they are what is written |
| `UciSession.Terminated` | app/utils/stockfish.py:23-32 | commands each followed by a newline; `UciSession.LinesOfTerminated` states that the engine cuts them back apart |
| `UciSession.StdinText` | app/utils/stockfish.py:23-32 | the text of the three `stdin.write` calls; `UciSession.StdinIsCommands` and `UciSession.AnalyzeWritesCommands` state it |
| `UciSession.Lines` | app/utils/stockfish.py:23-32 | how the engine cuts what is written into command lines; `UciSession.LinesOfTerminated` states that it inverts `Terminated` |
| `UciSession.StdinIsCommands` | app/utils/stockfish.py:23-32 | the three writes send exactly `uci`, `isready`, `position fen <fen>`, `go depth <depth>`, in that order, each ended by a newline |
| `UciSession.LinesOfTerminated` | app/utils/stockfish.py:23-32 | cutting newline-terminated commands at newlines gives the commands back |
| `UciSession.EngineReadsCommands` | app/utils/stockfish.py:23-32 | for a FEN without newlines, the engine receives exactly the four commands |
| `UciSession.Analyze` | app/utils/stockfish.py:9-70 | the whole call against an engine output and a clock; `UciSession.AnalyzeWritesCommands`, `UciSession.AnalyzeAfterReadyok`, `UciSession.AnalyzeWithoutReadyok` and `UciSession.AnalyzeFailsIff` state its behaviour |
| `UciSession.AnalyzeDefault` | app/utils/stockfish.py:9 | the call with `depth=15` and `timeout=10`; `UciSession.ExampleExchange` states one run of it |
| `UciSession.AnalyzeWritesCommands` | app/utils/stockfish.py:23-33 | whatever the engine answers, the call writes the same four commands |
| `UciSession.ReadyWait` | app/utils/stockfish.py:26-29 | the handshake consumes at most `timeout * 10` lines, and never more than the output has |
| `UciSession.ReadyWaitFirst` | app/utils/stockfish.py:26-29 | with a `readyok` within the budget, the wait consumes up to and including the first one |
| `UciSession.ReadyWaitExhausted` | app/utils/stockfish.py:26-29 | without a `readyok` within the budget, the wait uses up the budget or the output, and goes on |
| `UciSession.AnalyzeAfterReadyok` | app/utils/stockfish.py:26-45 | the search loop starts at the line after the first `readyok` |
| `UciSession.AnalyzeWithoutReadyok` | app/utils/stockfish.py:26-45 | a missing `readyok` is no error: the search loop reads what follows the first `timeout * 10` lines |
| `UciSession.AnalyzeFailsIff` | app/utils/stockfish.py:42-44 | the call reports the timeout error, and only it, exactly when the clock fires before the search loop stops |
| `UciSession.NoCp` | app/utils/stockfish.py:50 | text where no 'c' is followed by 'p' does not contain "cp" |
| `UciSession.ExamplePrefix` | app/utils/stockfish.py:49 | "info depth 1 score " contains "info depth" and "score" and, with a 'c' appended, no "cp" |
| `UciSession.ExampleInfoScore` | app/utils/stockfish.py:49-54 | `info depth 1 score cp 20` sets the score to 20 centipawns |
| `UciSession.ExampleNoBestmove` | app/utils/stockfish.py:60 | that info line does not contain "bestmove" |
| `UciSession.ExampleInfoLine` | app/utils/stockfish.py:45-65 | that info line sets 20 centipawns and does not end the loop |
| `UciSession.ExampleBestMoveLine` | app/utils/stockfish.py:60-65 | `bestmove e2e4` ends the loop with move `e2e4` and no score |
| `UciSession.ExampleHandshake` | app/utils/stockfish.py:26-29 | an engine whose first line is `readyok` has one line consumed by the handshake |
| `UciSession.ExampleSearch` | app/utils/stockfish.py:42-70 | a line that sets 20 centipawns and then a line that ends the loop with move `e2e4` give that score and that move |
| `UciSession.ExampleSearchLines` | app/utils/stockfish.py:42-70 | the lines `info depth 1 score cp 20` and `bestmove e2e4`, read with no timeout, give score 20 centipawns and move `e2e4` |
| `UciSession.ExampleExchange` | app/utils/stockfish.py:9-70 | with default arguments, `readyok`, `info depth 1 score cp 20` and `bestmove e2e4` give score 20 centipawns and move `e2e4` |
| `Viewer.Truthy` | app/static/js/main.js:76 | JavaScript truthiness, as `if (data.error)` tests it at lines 76 and 146; `Viewer.EvaluationErrorIgnored` and `Viewer.LoadGameResets` state its effect |
| `Viewer.Fresh` | app/static/js/main.js:3-10 | the page's initial state, which loading restores; `Viewer.FreshIsValid` states that it satisfies the invariant |
| `Viewer.CountBelow` | app/static/js/main.js:157-159 | the number of accuracies below a threshold, at most their count; `Viewer.CountersAgree` uses it to tie the counters to the accuracies |
| `Viewer.CountersAgree` | app/static/js/main.js:154-160 | a colour's blunders are its accuracies below 3/5 and its inaccuracies those in [3/5, 4/5); `Viewer.CountersAgreeAppend` states that one scored move keeps this |
| `Viewer.Valid` | app/static/js/main.js:3-10 | the invariant: the index lies within the moves and the counters agree with the accuracies; `Viewer.StepsKeepValid` states that every handler keeps it |
| `Viewer.FreshIsValid` | app/static/js/main.js:3-10 | the initial state satisfies the invariant |
| `Viewer.NextMove` | app/static/js/main.js:114-121 | `nextMove` advances the index by one unless the last move is shown, and touches nothing else |
| `Viewer.PrevMove` | app/static/js/main.js:123-130 | `prevMove` moves the index back by one unless at the start, and touches nothing else |
| `Viewer.NavigationKeepsBounds` | app/static/js/main.js:114-130 | navigation keeps `0 <= moveIndex <= moves.length` and the invariant |
| `Viewer.NextThenPrev` | app/static/js/main.js:114-130 | next then previous restores the state, unless already at the end |
| `Viewer.PrevThenNext` | app/static/js/main.js:114-130 | previous then next restores the state, unless already at the start |
| `Viewer.NavigationSaturates` | app/static/js/main.js:114-130 | `nextMove` does nothing exactly at the end, and `prevMove` exactly at the start |
| `Viewer.LoadGame` | app/static/js/main.js:68-112 | `loadGame`'s handler; `Viewer.LoadGameResets` and `Viewer.LoadGameKeepsValid` state what it changes |
| `Viewer.LoadGameResets` | app/static/js/main.js:76-87 | a failed load or an error reply leaves the state unchanged; otherwise the moves are replaced and the index, the previous evaluation, the counters and the accuracies are cleared |
| `Viewer.LoadGameKeepsValid` | app/static/js/main.js:76-87 | loading keeps the invariant |
| `Viewer.StartsWith` | app/static/js/main.js:47 | JavaScript's `startsWith`; `Viewer.EvalBarMate` and `Viewer.EvalBarDefault` state its use |
| `Viewer.EvalBarPercent` | app/static/js/main.js:41-49 | the bar's height is always between 0 and 100 percent |
| `Viewer.EvalBarMonotone` | app/static/js/main.js:45-46 | a better numeric score for white never lowers the bar |
| `Viewer.EvalBarScale` | app/static/js/main.js:45-46 | between -10 and 10 the bar is `50 + 5x`; beyond, it is full or empty |
| `Viewer.EvalBarMate` | app/static/js/main.js:47-48 | every string starting with `mate` fills the bar, or empties it when it holds a minus sign anywhere |
| `Viewer.EvalBarDefault` | app/static/js/main.js:44-48 | anything that is neither a number nor a string starting with `mate` (null, a missing score, other strings) leaves the bar at 50 |
| `Viewer.EvalBarMateAnnouncement` | app/static/js/main.js:47-48 | for the engine's `mate <n>` form, a minus sign in the count empties the bar and otherwise it is full |
| `Viewer.BarAfter` | app/static/js/main.js:146-151 | after a reply the bar is within bounds, and errors show it at 50 percent |
| `Viewer.Accuracy` | app/static/js/main.js:159 | a move's accuracy lies between 0 and 1 |
| `Viewer.AccuracyClassifies` | app/static/js/main.js:157-159 | a change over 2 is exactly an accuracy below 3/5, and a change over 1 exactly one below 4/5 |
| `Viewer.OnEvaluation` | app/static/js/main.js:145-169 | the handler of an analysis reply; `Viewer.EvaluationErrorIgnored`, `Viewer.PrevEvalOnlyNumbers`, `Viewer.EvaluationClassifies`, `Viewer.FirstEvaluationNotScored` and `Viewer.EvaluationKeepsValid` state what it changes |
| `Viewer.EvaluationErrorIgnored` | app/static/js/main.js:146-148 | an error reply or a failed request changes no state |
| `Viewer.PrevEvalOnlyNumbers` | app/static/js/main.js:161 | the previous evaluation is replaced only by a number; other scores leave the state alone |
| `Viewer.EvaluationKeepsPosition` | app/static/js/main.js:145-162 | evaluations never move through the game |
| `Viewer.EvaluationClassifies` | app/static/js/main.js:146-161 | for any falsy `error`, a scored move adds one accuracy for the side that moved, one blunder exactly when the evaluation moved over 2, one inaccuracy exactly when it moved over 1 and at most 2, and leaves the other side alone |
| `Viewer.FirstEvaluationNotScored` | app/static/js/main.js:146-161 | with no previous evaluation, a numeric score under any falsy `error` only records itself |
| `Viewer.CountersAgreeAppend` | app/static/js/main.js:157-159 | recording one accuracy with the matching counter update keeps the counters in agreement |
| `Viewer.EvaluationKeepsValid` | app/static/js/main.js:153-161 | evaluations keep blunders equal to the accuracies below 3/5, and inaccuracies equal to those in [3/5, 4/5) |
| `Viewer.Sum` | app/static/js/main.js:61 | the `reduce((a, b) => a + b, 0)` sum of the accuracies; `Viewer.SumBounds` and `Viewer.SumUniform` state it |
| `Viewer.SumBounds` | app/static/js/main.js:60-65 | the sum of accuracies in [0, 1] lies between 0 and their number |
| `Viewer.SumUniform` | app/static/js/main.js:61 | the sum of `n` equal accuracies `a` is `n * a` |
| `Viewer.AveragePercent` | app/static/js/main.js:60-65 | the table's average accuracy in percent, or its "-"; `Viewer.AveragePercentBounds` and `Viewer.AveragePercentUniform` state it |
| `Viewer.AveragePercentBounds` | app/static/js/main.js:60-65 | the table shows "-" exactly for no moves, and otherwise an average between 0 and 100 percent |
| `Viewer.AveragePercentUniform` | app/static/js/main.js:60-65 | when every move of a colour got accuracy `a`, the table shows `100 * a` |
| `Viewer.Step` | app/static/js/main.js:114-169 | one event: a click on next or previous, a loaded game, or an analysis reply; `Viewer.StepsKeepValid` states that it keeps the invariant |
| `Viewer.Steps` | app/static/js/main.js:114-169 | a sequence of events applied in order; `Viewer.StepsKeepValid` states that it keeps the invariant |
| `Viewer.StepsKeepValid` | app/static/js/main.js:68-170 | whatever the order of clicks, loads and replies, the index stays within the game and the counters agree with the accuracies |
| `Viewer.PieceGlyph` | app/static/js/main.js:12-18 | `pieceUnicode`; `Viewer.PieceGlyphDefined`, `Viewer.PieceGlyphRoundTrip` and `Viewer.WhiteGlyphOffset` state which letters map to which symbols |
| `Viewer.GlyphPiece` | app/static/js/main.js:13-15 | the piece a symbol stands for; `Viewer.PieceGlyphRoundTrip` states that it inverts `PieceGlyph` |
| `Viewer.PieceGlyphDefined` | app/static/js/main.js:12-18 | exactly the twelve piece letters have a symbol; every other string gives "" |
| `Viewer.PieceGlyphRoundTrip` | app/static/js/main.js:12-18 | each letter's symbol is one character that names that piece back, so no two letters share a symbol |
| `Viewer.WhiteGlyphOffset` | app/static/js/main.js:14-15 | a white piece's symbol lies six code points below the black one's |

## Left out

- Process management is not modelled: starting the engine with `subprocess.Popen`, the pipes, `flush`, and the `STOCKFISH_PATH` environment lookup (lines 1-7, 15-22). The engine's output and the clock are inputs instead.
- An engine that stops writing without closing its output cannot be expressed. The engine output is a finite list, and end of output (`""`) always follows it. In the source, `readline()` (lines 27 and 45) then blocks forever, the timeout check at line 43 never runs again, and the call never returns. `UciSession.Analyze` always returns, and `UciSession.AnalyzeFailsIff` describes only engines that eventually write a line or close their output.
- The clock is not modelled: `time.time()` is replaced by the boolean oracle, and a `timeout` given as a float is not modelled.
- The outer `except Exception` handler (lines 71-72) is not modelled, since it ends in a stray `1` and that line does not parse. Errors it would catch are I/O errors.
- The division by 100 (line 52) is not modelled. The integer centipawn value is kept, because Python's float division is not part of the model.
- The accumulated `output` string (line 48) is not modelled, because nothing reads it.
- PyStr.ParseInt: Unicode decimal digits other than ASCII `0`-`9`, which Python's `int()` also accepts, are not modelled.
- SearchOutput.CentipawnLineRoundTrip: the model sets `Centipawns(n)` for every integer `n`. In the source, `int(...) / 100` at line 52 raises OverflowError once the quotient is beyond the float range (integers of about 311 digits), and Python 3.11 and later make `int()` raise ValueError on a token of more than 4300 digits. The `except` at lines 53-54 swallows both, so the previous score survives. The model leaves out floats and the interpreter's digit limit, so for such tokens it promises a score the source does not set. The same holds for `SearchOutput.LineScore`.
- app/routes.py and app/__init__.py (the Flask routes and app factory) are not part of this model. `/analyze_fen` does not call `analyze_with_stockfish`.
- Not modelled from the viewer: the DOM, `fetch` and its asynchrony, the chessboard widget, chess.js (`game.move`, `game.undo`, `game.fen`, `game.turn`), `updateCaptured`, `updateTurnIndicator`, `toFixed`, and the player names and opening info.
- Viewer.LoadGame: a reply object without `moves` becomes the move list itself in the source, whose `length` is undefined, so `nextMove` never advances. The model uses the empty list, which gives the same navigation.
- Viewer.PieceGlyph: keys inherited from `Object.prototype` (such as `"constructor"`) give a function in the source rather than `""`. The model treats every non-piece string as `""`.
- Viewer.EvalBarPercent: JavaScript numbers are modelled as reals, so NaN and the infinities are left out.
