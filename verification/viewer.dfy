/**
 * The game viewer's state in app/static/js/main.js: the move list and the
 * index of the move shown, the last numeric evaluation, and the per-colour
 * blunder and inaccuracy counters and move accuracies, together with the
 * handlers that change them and the numbers the page derives from them.
 *
 * The board, the DOM and chess.js are outside the model. Replies of `fetch`
 * arrive as values of the datatypes below; the side to move that chess.js
 * reports when an evaluation arrives (`game.turn()`) is a parameter.
 */
module Viewer {
  import opened Wrappers

  // ---------------------------------------------------------------------
  // JavaScript values

  /** The JavaScript values a reply field can hold; numbers are finite. */
  datatype JsValue =
    | JsUndefined
    | JsNull
    | JsBool(b: bool)
    | JsNumber(x: real)
    | JsString(s: string)
    | JsObject

  /** JavaScript truthiness, as `if (data.error)` tests it. */
  predicate Truthy(v: JsValue) {
    match v
    case JsUndefined => false
    case JsNull => false
    case JsBool(b) => b
    case JsNumber(x) => x != 0.0
    case JsString(s) => s != ""
    case JsObject => true
  }

  function Abs(x: real): real {
    if x < 0.0 then -x else x
  }

  function Max(a: real, b: real): real {
    if a < b then b else a
  }

  function Min(a: real, b: real): real {
    if a < b then a else b
  }

  // ---------------------------------------------------------------------
  // Per-colour records

  datatype Color = White | Black {
    function Opposite(): Color {
      if this == White then Black else White
    }
  }

  /** The `{ w: ..., b: ... }` objects of the page. */
  datatype PerColor<T> = PerColor(w: T, b: T) {
    function Get(c: Color): T {
      if c == White then w else b
    }

    function Set(c: Color, v: T): (r: PerColor<T>)
      ensures r.Get(c) == v && r.Get(c.Opposite()) == Get(c.Opposite())
    {
      if c == White then PerColor(v, b) else PerColor(w, v)
    }
  }

  /** The page's global state (lines 3-10), less the board, the game and the captured pieces. */
  datatype State = State(
    moves: seq<string>,
    moveIndex: int,
    prevEval: Option<real>,
    blunders: PerColor<nat>,
    inaccuracies: PerColor<nat>,
    moveAcc: PerColor<seq<real>>)

  /** The state the page starts with and that loading a game restores. */
  function Fresh(moves: seq<string>): State {
    State(moves, 0, None, PerColor(0, 0), PerColor(0, 0), PerColor([], []))
  }

  // ---------------------------------------------------------------------
  // Accuracy bookkeeping

  /** How many accuracies in `acc` lie below `t`. */
  function CountBelow(acc: seq<real>, t: real): (n: nat)
    ensures n <= |acc|
  {
    if |acc| == 0 then 0
    else CountBelow(acc[..|acc| - 1], t) + (if acc[|acc| - 1] < t then 1 else 0)
  }

  predicate InUnit(acc: seq<real>) {
    forall i :: 0 <= i < |acc| ==> 0.0 <= acc[i] <= 1.0
  }

  const BlunderBound: real := 3.0 / 5.0
  const InaccuracyBound: real := 4.0 / 5.0

  /**
   * What the counters mean: a move is a blunder exactly when its accuracy is
   * below 3/5 and an inaccuracy exactly when it lies in [3/5, 4/5), so the
   * counters are a function of the accuracies recorded for that colour.
   */
  predicate CountersAgree(st: State, c: Color) {
    var acc := st.moveAcc.Get(c);
    && InUnit(acc)
    && st.blunders.Get(c) == CountBelow(acc, BlunderBound)
    && st.inaccuracies.Get(c) + CountBelow(acc, BlunderBound) == CountBelow(acc, InaccuracyBound)
  }

  /** The invariant every handler keeps. */
  predicate Valid(st: State) {
    && 0 <= st.moveIndex <= |st.moves|
    && CountersAgree(st, White)
    && CountersAgree(st, Black)
  }

  lemma FreshIsValid(moves: seq<string>)
    ensures Valid(Fresh(moves))
  {
  }

  // ---------------------------------------------------------------------
  // Navigation (lines 114-130)

  /** `nextMove`: advance one move unless the last one is shown. */
  function NextMove(st: State): (r: State)
    ensures r.moves == st.moves && r.prevEval == st.prevEval
    ensures r.blunders == st.blunders && r.inaccuracies == st.inaccuracies && r.moveAcc == st.moveAcc
    ensures st.moveIndex < |st.moves| ==> r.moveIndex == st.moveIndex + 1
    ensures st.moveIndex >= |st.moves| ==> r == st
  {
    if st.moveIndex < |st.moves| then st.(moveIndex := st.moveIndex + 1) else st
  }

  /** `prevMove`: go back one move unless at the start. */
  function PrevMove(st: State): (r: State)
    ensures r.moves == st.moves && r.prevEval == st.prevEval
    ensures r.blunders == st.blunders && r.inaccuracies == st.inaccuracies && r.moveAcc == st.moveAcc
    ensures st.moveIndex > 0 ==> r.moveIndex == st.moveIndex - 1
    ensures st.moveIndex <= 0 ==> r == st
  {
    if st.moveIndex > 0 then st.(moveIndex := st.moveIndex - 1) else st
  }

  /** Navigation keeps the shown move within the game: `0 <= moveIndex <= moves.length`. */
  lemma NavigationKeepsBounds(st: State)
    requires Valid(st)
    ensures Valid(NextMove(st)) && Valid(PrevMove(st))
    ensures 0 <= NextMove(st).moveIndex <= |st.moves| && 0 <= PrevMove(st).moveIndex <= |st.moves|
  {
  }

  /** Stepping forward and then back returns to the same state, unless already at the end. */
  lemma NextThenPrev(st: State)
    requires Valid(st) && st.moveIndex < |st.moves|
    ensures PrevMove(NextMove(st)) == st
  {
  }

  /** Stepping back and then forward returns to the same state, unless already at the start. */
  lemma PrevThenNext(st: State)
    requires Valid(st) && st.moveIndex > 0
    ensures NextMove(PrevMove(st)) == st
  {
  }

  /** At the end `nextMove` does nothing, and at the start `prevMove` does nothing. */
  lemma NavigationSaturates(st: State)
    requires Valid(st)
    ensures st.moveIndex == |st.moves| <==> NextMove(st) == st
    ensures st.moveIndex == 0 <==> PrevMove(st) == st
  {
  }

  // ---------------------------------------------------------------------
  // Loading a game (lines 68-112)

  /** The reply of `/load_game`: a game object, a bare list of moves, or a failed request. */
  datatype GameReply =
    | GameObject(error: JsValue, moves: Option<seq<string>>)
    | MoveList(list: seq<string>)
    | LoadFailed

  /**
   * `loadGame`'s handler: an error, or a failed request, leaves everything
   * as it was; otherwise the moves are replaced (`data.moves || data`) and
   * the index, the evaluation and all counters are reset.
   */
  function LoadGame(st: State, reply: GameReply): State {
    match reply
    case LoadFailed => st
    case MoveList(list) => Fresh(list)
    case GameObject(error, moves) =>
      if Truthy(error) then st
      else Fresh(if moves.Some? then moves.value else [])
  }

  /** Loading leaves the state alone on failure, and otherwise resets everything but the moves. */
  lemma LoadGameResets(st: State, reply: GameReply)
    ensures reply.LoadFailed? || (reply.GameObject? && Truthy(reply.error)) ==> LoadGame(st, reply) == st
    ensures reply.MoveList? || (reply.GameObject? && !Truthy(reply.error)) ==>
      var r := LoadGame(st, reply);
      && r.moveIndex == 0 && r.prevEval.None?
      && r.blunders == PerColor(0, 0) && r.inaccuracies == PerColor(0, 0)
      && r.moveAcc == PerColor([], [])
      && r.moves == (if reply.MoveList? then reply.list else reply.moves.GetOr([]))
  {
  }

  lemma LoadGameKeepsValid(st: State, reply: GameReply)
    requires Valid(st)
    ensures Valid(LoadGame(st, reply))
  {
  }

  // ---------------------------------------------------------------------
  // The evaluation bar (lines 41-53)

  predicate StartsWith(s: string, prefix: string) {
    |prefix| <= |s| && s[..|prefix|] == prefix
  }

  /**
   * `updateEvalBar`: the bar's height in percent. A number (white positive,
   * in the unit of the reply) moves the bar 5 points per unit from the middle, clamped to the
   * bar; a "mate" string fills it for white, or empties it when it holds a
   * minus sign; anything else leaves it in the middle.
   */
  function EvalBarPercent(score: JsValue): (p: real)
    ensures 0.0 <= p <= 100.0
  {
    match score
    case JsNumber(x) => Max(0.0, Min(100.0, 50.0 + x * 5.0))
    case JsString(s) =>
      if StartsWith(s, "mate") then (if '-' in s then 0.0 else 100.0) else 50.0
    case _ => 50.0
  }

  /** The bar moves with the evaluation: a better score for white never lowers it. */
  lemma EvalBarMonotone(x: real, y: real)
    requires x <= y
    ensures EvalBarPercent(JsNumber(x)) <= EvalBarPercent(JsNumber(y))
  {
  }

  /** Between -10 and 10 the bar is exactly `50 + 5x`; beyond, it is full or empty. */
  lemma EvalBarScale(x: real)
    ensures -10.0 <= x <= 10.0 ==> EvalBarPercent(JsNumber(x)) == 50.0 + 5.0 * x
    ensures x >= 10.0 ==> EvalBarPercent(JsNumber(x)) == 100.0
    ensures x <= -10.0 ==> EvalBarPercent(JsNumber(x)) == 0.0
  {
  }

  /**
   * Any string starting with "mate" fills the bar, or empties it when it
   * holds a minus sign anywhere, "mate" itself and "mated" included.
   */
  lemma EvalBarMate(s: string)
    requires StartsWith(s, "mate")
    ensures EvalBarPercent(JsString(s)) == if '-' in s then 0.0 else 100.0
  {
  }

  /** Every other value, a missing or null score included, leaves the bar in the middle. */
  lemma EvalBarDefault(v: JsValue)
    requires !v.JsNumber? && !(v.JsString? && StartsWith(v.s, "mate"))
    ensures EvalBarPercent(v) == 50.0
  {
  }

  /** A mate announcement fills the bar for white, and empties it when the mating side is black. */
  lemma EvalBarMateAnnouncement(token: string)
    ensures EvalBarPercent(JsString("mate " + token)) == if '-' in token then 0.0 else 100.0
  {
    var s := "mate " + token;
    assert s[..4] == "mate";
    EvalBarMate(s);
    assert '-' in s <==> '-' in token by {
      assert s == "mate " + token;
      if '-' in s {
        var i :| 0 <= i < |s| && s[i] == '-';
        assert i >= 5 && token[i - 5] == '-';
      }
      if '-' in token {
        var i :| 0 <= i < |token| && token[i] == '-';
        assert s[i + 5] == '-';
      }
    }
  }

  /** The height the bar gets once a reply arrives; errors show an even position. */
  function BarAfter(reply: AnalysisReply): (p: real)
    ensures 0.0 <= p <= 100.0
    ensures reply.AnalysisFailed? || Truthy(reply.error) ==> p == 50.0
  {
    if reply.AnalysisFailed? || Truthy(reply.error) then EvalBarPercent(JsNumber(0.0))
    else EvalBarPercent(reply.score)
  }

  // ---------------------------------------------------------------------
  // Evaluations (lines 139-169)

  /** The reply of `/analyze_fen`, or a failed request. */
  datatype AnalysisReply =
    | Analysis(error: JsValue, score: JsValue)
    | AnalysisFailed

  /** The accuracy given to a move that changed the evaluation by `diff`. */
  function Accuracy(diff: real): (a: real)
    requires diff >= 0.0
    ensures 0.0 <= a <= 1.0
  {
    Max(0.0, 1.0 - diff / 5.0)
  }

  /** The thresholds on the change and on the accuracy classify a move the same way. */
  lemma AccuracyClassifies(diff: real)
    requires diff >= 0.0
    ensures diff > 2.0 <==> Accuracy(diff) < BlunderBound
    ensures diff > 1.0 <==> Accuracy(diff) < InaccuracyBound
  {
  }

  /**
   * The handler of an analysis reply. Errors and failed requests change no
   * state. Otherwise, when a previous numeric evaluation exists and the new
   * score is a number, the move just played (by the side not to move) is
   * classified by how far the evaluation moved: more than 2 is a
   * blunder, more than 1 an inaccuracy, and its accuracy is recorded. The
   * previous evaluation is then replaced only by a number.
   */
  function OnEvaluation(st: State, turn: Color, reply: AnalysisReply): State {
    if reply.AnalysisFailed? || Truthy(reply.error) then st
    else
      var tracked :=
        if st.prevEval.Some? && reply.score.JsNumber? then
          var diff := Abs(reply.score.x - st.prevEval.value);
          var mover := turn.Opposite();
          var acc := st.moveAcc.Get(mover);
          st.(
            blunders := if diff > 2.0 then st.blunders.Set(mover, st.blunders.Get(mover) + 1) else st.blunders,
            inaccuracies :=
              if !(diff > 2.0) && diff > 1.0 then st.inaccuracies.Set(mover, st.inaccuracies.Get(mover) + 1)
              else st.inaccuracies,
            moveAcc := st.moveAcc.Set(mover, acc + [Accuracy(diff)]))
        else st;
      tracked.(prevEval := if reply.score.JsNumber? then Some(reply.score.x) else st.prevEval)
  }

  /** An error reply, or a failed request, changes nothing. */
  lemma EvaluationErrorIgnored(st: State, turn: Color, reply: AnalysisReply)
    requires reply.AnalysisFailed? || Truthy(reply.error)
    ensures OnEvaluation(st, turn, reply) == st
  {
  }

  /** The previous evaluation only ever becomes a number; other scores keep it. */
  lemma PrevEvalOnlyNumbers(st: State, turn: Color, reply: AnalysisReply)
    requires reply.Analysis? && !Truthy(reply.error)
    ensures reply.score.JsNumber? ==> OnEvaluation(st, turn, reply).prevEval == Some(reply.score.x)
    ensures !reply.score.JsNumber? ==> OnEvaluation(st, turn, reply) == st
  {
  }

  /** Navigation is untouched by evaluations. */
  lemma EvaluationKeepsPosition(st: State, turn: Color, reply: AnalysisReply)
    ensures OnEvaluation(st, turn, reply).moves == st.moves
    ensures OnEvaluation(st, turn, reply).moveIndex == st.moveIndex
  {
  }

  /**
   * A scored move: the colour that just moved gets one more accuracy, one
   * more blunder exactly when the evaluation moved by more than 2, and
   * one more inaccuracy exactly when it moved by more than 1 and at most 2;
   * the other colour's record is unchanged.
   */
  lemma EvaluationClassifies(st: State, turn: Color, err: JsValue, p: real, x: real)
    requires !Truthy(err) && st.prevEval == Some(p)
    ensures
      var r := OnEvaluation(st, turn, Analysis(err, JsNumber(x)));
      var mover := turn.Opposite();
      var diff := Abs(x - p);
      && r.moveAcc.Get(mover) == st.moveAcc.Get(mover) + [Accuracy(diff)]
      && r.blunders.Get(mover) == st.blunders.Get(mover) + (if diff > 2.0 then 1 else 0)
      && r.inaccuracies.Get(mover) == st.inaccuracies.Get(mover) + (if 1.0 < diff <= 2.0 then 1 else 0)
      && r.moveAcc.Get(turn) == st.moveAcc.Get(turn)
      && r.blunders.Get(turn) == st.blunders.Get(turn)
      && r.inaccuracies.Get(turn) == st.inaccuracies.Get(turn)
      && r.prevEval == Some(x)
  {
    assert turn == turn.Opposite().Opposite();
  }

  /** The first numeric evaluation after a reset only records itself. */
  lemma FirstEvaluationNotScored(st: State, turn: Color, err: JsValue, x: real)
    requires !Truthy(err) && st.prevEval.None?
    ensures OnEvaluation(st, turn, Analysis(err, JsNumber(x))) == st.(prevEval := Some(x))
  {
  }

  lemma CountersAgreeAppend(st: State, r: State, c: Color, a: real)
    requires CountersAgree(st, c)
    requires 0.0 <= a <= 1.0
    requires r.moveAcc.Get(c) == st.moveAcc.Get(c) + [a]
    requires r.blunders.Get(c) == st.blunders.Get(c) + (if a < BlunderBound then 1 else 0)
    requires r.inaccuracies.Get(c) == st.inaccuracies.Get(c) + (if BlunderBound <= a < InaccuracyBound then 1 else 0)
    ensures CountersAgree(r, c)
  {
    var acc := r.moveAcc.Get(c);
    assert acc[..|acc| - 1] == st.moveAcc.Get(c);
  }

  /** Evaluations keep the counters in agreement with the recorded accuracies. */
  lemma EvaluationKeepsValid(st: State, turn: Color, reply: AnalysisReply)
    requires Valid(st)
    ensures Valid(OnEvaluation(st, turn, reply))
  {
    if reply.Analysis? && !Truthy(reply.error) && st.prevEval.Some? && reply.score.JsNumber? {
      var r := OnEvaluation(st, turn, reply);
      var mover := turn.Opposite();
      var diff := Abs(reply.score.x - st.prevEval.value);
      assert reply == Analysis(reply.error, JsNumber(reply.score.x));
      EvaluationClassifies(st, turn, reply.error, st.prevEval.value, reply.score.x);
      AccuracyClassifies(diff);
      CountersAgreeAppend(st, r, mover, Accuracy(diff));
      assert turn == White || turn == Black;
    }
  }

  // ---------------------------------------------------------------------
  // The accuracy table (lines 55-66)

  function Sum(acc: seq<real>): real {
    if |acc| == 0 then 0.0 else Sum(acc[..|acc| - 1]) + acc[|acc| - 1]
  }

  /** The average accuracy in percent that the table shows, or None for its "-". */
  function AveragePercent(acc: seq<real>): Option<real> {
    if |acc| == 0 then None else Some(Sum(acc) / (|acc| as real) * 100.0)
  }

  lemma {:induction false} SumBounds(acc: seq<real>)
    requires InUnit(acc)
    ensures 0.0 <= Sum(acc) <= |acc| as real
    decreases |acc|
  {
    if |acc| > 0 {
      SumBounds(acc[..|acc| - 1]);
    }
  }

  /** The average shown is a percentage whenever the accuracies are valid. */
  lemma AveragePercentBounds(acc: seq<real>)
    requires InUnit(acc)
    ensures AveragePercent(acc).None? <==> |acc| == 0
    ensures AveragePercent(acc).Some? ==> 0.0 <= AveragePercent(acc).value <= 100.0
  {
    if |acc| > 0 {
      SumBounds(acc);
      var n := |acc| as real;
      assert Sum(acc) / n <= 1.0;
    }
  }

  lemma {:induction false} SumUniform(acc: seq<real>, a: real)
    requires forall i :: 0 <= i < |acc| ==> acc[i] == a
    ensures Sum(acc) == |acc| as real * a
    decreases |acc|
  {
    if |acc| > 0 {
      SumUniform(acc[..|acc| - 1], a);
    }
  }

  /** When every move of a colour got the same accuracy `a`, the table shows `100 * a`. */
  lemma AveragePercentUniform(acc: seq<real>, a: real)
    requires |acc| > 0
    requires forall i :: 0 <= i < |acc| ==> acc[i] == a
    ensures AveragePercent(acc) == Some(100.0 * a)
  {
    SumUniform(acc, a);
    var n := |acc| as real;
    assert Sum(acc) / n == a;
  }

  // ---------------------------------------------------------------------
  // Everything the page reacts to

  datatype Event =
    | Next
    | Prev
    | Loaded(game: GameReply)
    | Evaluated(turn: Color, reply: AnalysisReply)

  function Step(st: State, e: Event): State {
    match e
    case Next => NextMove(st)
    case Prev => PrevMove(st)
    case Loaded(game) => LoadGame(st, game)
    case Evaluated(turn, reply) => OnEvaluation(st, turn, reply)
  }

  function Steps(st: State, es: seq<Event>): State
    decreases |es|
  {
    if |es| == 0 then st else Steps(Step(st, es[0]), es[1..])
  }

  /**
   * Whatever the order in which clicks, loads and evaluation replies arrive,
   * the shown move stays within the game and the counters agree with the
   * accuracies.
   */
  lemma {:induction false} StepsKeepValid(st: State, es: seq<Event>)
    requires Valid(st)
    ensures Valid(Steps(st, es))
    decreases |es|
  {
    if |es| > 0 {
      match es[0] {
        case Next => NavigationKeepsBounds(st);
        case Prev => NavigationKeepsBounds(st);
        case Loaded(game) => LoadGameKeepsValid(st, game);
        case Evaluated(turn, reply) => EvaluationKeepsValid(st, turn, reply);
      }
      StepsKeepValid(Step(st, es[0]), es[1..]);
    }
  }

  // ---------------------------------------------------------------------
  // Piece symbols (lines 12-18)

  /** `pieceUnicode`: the chess symbol of a piece letter, black lower-case and white upper-case, else "". */
  function PieceGlyph(piece: string): string {
    match piece
    case "p" => "♟"
    case "n" => "♞"
    case "b" => "♝"
    case "r" => "♜"
    case "q" => "♛"
    case "k" => "♚"
    case "P" => "♙"
    case "N" => "♘"
    case "B" => "♗"
    case "R" => "♖"
    case "Q" => "♕"
    case "K" => "♔"
    case _ => ""
  }

  const PieceLetters: set<string> := {"p", "n", "b", "r", "q", "k", "P", "N", "B", "R", "Q", "K"}

  /** The piece a chess symbol stands for: the inverse of `PieceGlyph`. */
  function GlyphPiece(glyph: string): Option<string> {
    if |glyph| != 1 || !('♔' <= glyph[0] <= '♟') then None
    else
      var k := glyph[0] as int - '♔' as int;
      Some(["K", "Q", "R", "B", "N", "P", "k", "q", "r", "b", "n", "p"][k])
  }

  /** Exactly the twelve piece letters have a symbol. */
  lemma PieceGlyphDefined(piece: string)
    ensures PieceGlyph(piece) != "" <==> piece in PieceLetters
  {
  }

  /** Each letter's symbol names that piece back, so no two letters share a symbol. */
  lemma PieceGlyphRoundTrip(piece: string)
    requires piece in PieceLetters
    ensures |PieceGlyph(piece)| == 1
    ensures GlyphPiece(PieceGlyph(piece)) == Some(piece)
  {
  }

  /** A white piece's symbol lies six code points below the black one's. */
  lemma WhiteGlyphOffset(piece: string)
    requires piece in {"p", "n", "b", "r", "q", "k"}
    ensures var white := [piece[0] - 'a' as char + 'A'];
      PieceGlyph(white)[0] as int + 6 == PieceGlyph(piece)[0] as int
  {
  }
}
