/**
 * game_analysis.py: `analyze_game_between_moves_with_stockfish`, with the
 * UCI engine as an uninterpreted function from a board and a search limit
 * to a score relative to the side to move.
 */
module GameAnalysis {
  import opened Wrappers
  import opened Strings
  import opened Chess

  function Max(a: int, b: int): (m: int)
    ensures m >= a && m >= b && (m == a || m == b)
  {
    if a >= b then a else b
  }

  function Min(a: int, b: int): (m: int)
    ensures m <= a && m <= b && (m == a || m == b)
  {
    if a <= b then a else b
  }

  // ---------------------------------------------------------------------------
  // Move numbers and colours
  // ---------------------------------------------------------------------------

  /** `(idx // 2) + 1`: the move number of half-move `idx`. */
  function MoveNumber(idx: nat): (k: nat)
    ensures k >= 1 && 2 * (k - 1) <= idx < 2 * k
  {
    idx / 2 + 1
  }

  /** The colour label printed for half-move `idx`. */
  function ColorLabel(idx: nat): (c: string)
    ensures c == "White" || c == "Black"
    ensures c == "White" <==> idx % 2 == 0
  {
    if idx % 2 == 0 then "White" else "Black"
  }

  /** White's and Black's half-moves of one move pair share its number. */
  lemma MovePairShareNumber(m: nat)
    ensures MoveNumber(2 * m) == m + 1 && MoveNumber(2 * m + 1) == m + 1
    ensures ColorLabel(2 * m) == "White" && ColorLabel(2 * m + 1) == "Black"
  {
  }

  // ---------------------------------------------------------------------------
  // The analysis window
  // ---------------------------------------------------------------------------

  /**
   * The half-move indices below `n` that are analysed, in increasing order:
   * a run of consecutive indices.
   */
  function Window(n: nat, start: int, end: int): (w: seq<nat>)
    ensures forall i :: 0 <= i < |w| ==> w[i] < n
  {
    var lo := Max(0, 2 * start - 2);
    var hi := Min(n, 2 * end);
    if hi <= lo then [] else seq(hi - lo, i requires 0 <= i < hi - lo => lo + i)
  }

  /**
   * The window is exactly the indices below `n` whose move number lies in
   * `[start, end]`, listed in increasing order; it is empty when
   * `end < start`.
   */
  lemma WindowExact(n: nat, start: int, end: int)
    ensures forall idx: nat :: idx in Window(n, start, end) <==> idx < n && start <= MoveNumber(idx) <= end
    ensures forall i, j :: 0 <= i < j < |Window(n, start, end)| ==> Window(n, start, end)[i] < Window(n, start, end)[j]
    ensures end < start ==> Window(n, start, end) == []
  {
    var w := Window(n, start, end);
    var lo := Max(0, 2 * start - 2);
    forall idx: nat ensures idx in w <==> idx < n && start <= MoveNumber(idx) <= end {
      NumberAtLeast(idx, start);
      NumberAtMost(idx, end);
      if idx in w {
        var i :| 0 <= i < |w| && w[i] == idx;
      }
      if idx < n && start <= MoveNumber(idx) <= end {
        assert w[idx - lo] == idx;
      }
    }
  }

  lemma NumberAtLeast(idx: nat, start: int)
    ensures MoveNumber(idx) >= start <==> idx >= 2 * start - 2
  {
  }

  lemma NumberAtMost(idx: nat, end: int)
    ensures MoveNumber(idx) <= end <==> idx < 2 * end
  {
  }

  /** Growing the game by one half-move adds that index to the window if it qualifies. */
  lemma WindowStep(idx: nat, start: int, end: int)
    ensures Window(idx + 1, start, end)
      == if start <= MoveNumber(idx) <= end then Window(idx, start, end) + [idx] else Window(idx, start, end)
  {
    NumberAtLeast(idx, start);
    NumberAtMost(idx, end);
    var lo := Max(0, 2 * start - 2);
    if start <= MoveNumber(idx) <= end {
      assert Window(idx + 1, start, end) == Window(idx, start, end) + [idx];
    } else {
      assert Window(idx + 1, start, end) == Window(idx, start, end);
    }
  }

  /**
   * The first half-move whose move number is at least `start` and exceeds
   * `end`: where the loop breaks.
   */
  function BreakIndex(start: int, end: int): nat
  {
    Max(0, Max(2 * start - 2, 2 * end))
  }

  /** The loop breaks at half-move `idx` exactly when `idx` is at or past the break index. */
  lemma BreakIndexExact(idx: nat, start: int, end: int)
    ensures (start <= MoveNumber(idx) && MoveNumber(idx) > end) <==> idx >= BreakIndex(start, end)
  {
    NumberAtLeast(idx, start);
    NumberAtMost(idx, end);
  }

  /** Nothing at or past the break index is in the window. */
  lemma WindowBeforeBreak(n: nat, start: int, end: int)
    requires BreakIndex(start, end) <= n
    ensures Window(n, start, end) == Window(BreakIndex(start, end), start, end)
  {
  }

  /** How many moves the loop pushes onto the board of a game of `n` half-moves. */
  function PliesPushed(n: nat, start: int, end: int): nat
  {
    if BreakIndex(start, end) < n then BreakIndex(start, end) + 1 else n
  }

  // ---------------------------------------------------------------------------
  // Limits and scores
  // ---------------------------------------------------------------------------

  /** `chess.engine.Limit(depth=...)` or `chess.engine.Limit(time=...)`. */
  datatype Limit = DepthLimit(depth: int) | TimeLimit(seconds: real)

  /** Python truthiness of `depth`, which is `None` or an integer. */
  predicate Truthy(depth: Option<int>)
  {
    depth.Some? && depth.value != 0
  }

  /** The limit chosen for every analysed position. */
  function ChooseLimit(depth: Option<int>, analysisTime: real): (l: Limit)
    ensures l.DepthLimit? <==> Truthy(depth)
    ensures l.DepthLimit? ==> Some(l.depth) == depth
    ensures l.TimeLimit? ==> l.seconds == analysisTime
  {
    if Truthy(depth) then DepthLimit(depth.value) else TimeLimit(analysisTime)
  }

  /**
   * `info['score'].relative`: a centipawn value (`score()` is that value)
   * or a mate count (`score()` is `None`, `mate()` is the count), both
   * relative to the side to move.
   */
  datatype Score = Cp(centipawns: int) | Mate(moves: int)

  /** `f"-M{m}"` when `m > 0`, else `f"M{-m}"`. */
  function MateText(m: int): (t: string)
    ensures |t| >= 2 && (t[0] == '-' <==> m > 0)
    ensures t[if m > 0 then 1 else 0] == 'M'
    ensures t[if m > 0 then 2 else 1..] == NatToString(if m > 0 then m else -m)
  {
    var a := if m > 0 then m else -m;
    var t := (if m > 0 then "-M" else "M") + NatToString(a);
    assert t[if m > 0 then 2 else 1..] == NatToString(a);
    t
  }

  /**
   * `f"{cp / 100:.2f}"`, written as exact decimal arithmetic: an optional
   * minus sign, the whole part of `|cp| / 100`, a point and two digits.
   */
  function CentipawnText(cp: int): (t: string)
    ensures |t| >= 4 && t[|t| - 3] == '.'
    ensures t[0] == '-' <==> cp < 0
  {
    var a := if cp < 0 then -cp else cp;
    var whole := NatToString(a / 100);
    var t := (if cp < 0 then "-" else "") + whole + "." + [DigitChar(a % 100 / 10), DigitChar(a % 10)];
    assert cp >= 0 ==> t[0] == whole[0];
    t
  }

  /** The evaluation text printed for a score. */
  function ScoreText(s: Score): (t: string)
    ensures |t| >= 2
    ensures s.Cp? ==> (t[0] == '-' <==> s.centipawns < 0)
    ensures s.Mate? ==> (t[0] == '-' <==> s.moves > 0)
  {
    match s
    case Mate(m) => MateText(m)
    case Cp(cp) => CentipawnText(cp)
  }

  /** Reads `digits.dd` back as a number of hundredths. */
  function ParseHundredths(body: string): Option<nat>
  {
    if |body| < 4 || body[|body| - 3] != '.' || !AllDigits(body[..|body| - 3]) || !AllDigits(body[|body| - 2..]) then None
    else Some(100 * ParseDigits(body[..|body| - 3]) + ParseDigits(body[|body| - 2..]))
  }

  /** Reads a centipawn text back: `-`?, digits, `.`, two digits. */
  function ParseCentipawnText(t: string): Option<int>
  {
    if |t| > 0 && t[0] == '-' then
      match ParseHundredths(t[1..]) case Some(v) => Some(-(v as int)) case None => None
    else
      match ParseHundredths(t) case Some(v) => Some(v) case None => None
  }

  lemma TwoDigits(d1: nat, d2: nat)
    requires d1 < 10 && d2 < 10
    ensures AllDigits([DigitChar(d1), DigitChar(d2)])
    ensures ParseDigits([DigitChar(d1), DigitChar(d2)]) == 10 * d1 + d2
  {
    var s := [DigitChar(d1), DigitChar(d2)];
    DigitRoundTrip(d1);
    DigitRoundTrip(d2);
    assert s[..1] == [DigitChar(d1)];
    assert [DigitChar(d1)][..0] == [];
    assert ParseDigits([DigitChar(d1)]) == d1;
  }

  /** Where the pieces of `whole + "." + frac` sit. */
  lemma DecimalLayout(whole: string, frac: string)
    requires |frac| == 2
    ensures var body := whole + "." + frac;
      |body| == |whole| + 3 && body[|body| - 3] == '.'
      && body[..|body| - 3] == whole && body[|body| - 2..] == frac
  {
  }

  lemma DecimalSplit(a: nat)
    ensures 100 * (a / 100) + 10 * (a % 100 / 10) + a % 10 == a
  {
  }

  /** Reading back a whole part, a point and two digits. */
  lemma ParseDecimal(whole: string, frac: string)
    requires |whole| >= 1 && AllDigits(whole)
    requires |frac| == 2 && AllDigits(frac)
    ensures ParseHundredths(whole + "." + frac) == Some(100 * ParseDigits(whole) + ParseDigits(frac))
  {
    DecimalLayout(whole, frac);
  }

  /** A leading minus sign negates the value read back. */
  lemma ParseSigned(neg: bool, body: string, v: nat)
    requires ParseHundredths(body) == Some(v)
    requires |body| > 0 && body[0] != '-'
    ensures ParseCentipawnText((if neg then "-" else "") + body) == Some(if neg then -(v as int) else v)
  {
    var t := (if neg then "-" else "") + body;
    if neg {
      assert t[0] == '-' && t[1..] == body;
    } else {
      assert t == body;
    }
  }

  /** The centipawn text denotes exactly `cp / 100`: reading it back gives `cp`. */
  /** The three parts of a centipawn text. */
  lemma CentipawnLayout(cp: int)
    ensures var a := if cp < 0 then -cp else cp;
      CentipawnText(cp) == (if cp < 0 then "-" else "")
        + (NatToString(a / 100) + "." + [DigitChar(a % 100 / 10), DigitChar(a % 10)])
  {
  }

  lemma CentipawnTextRoundTrip(cp: int)
    ensures ParseCentipawnText(CentipawnText(cp)) == Some(cp)
  {
    var a := if cp < 0 then -cp else cp;
    var whole := NatToString(a / 100);
    var frac := [DigitChar(a % 100 / 10), DigitChar(a % 10)];
    CentipawnLayout(cp);
    TwoDigits(a % 100 / 10, a % 10);
    ParseDecimal(whole, frac);
    ParseSigned(cp < 0, whole + "." + frac, 100 * ParseDigits(whole) + ParseDigits(frac));
    ParseNatToString(a / 100);
    DecimalSplit(a);
  }

  /** Distinct centipawn scores print differently. */
  lemma CentipawnTextInjective(a: int, b: int)
    requires CentipawnText(a) == CentipawnText(b)
    ensures a == b
  {
    CentipawnTextRoundTrip(a);
    CentipawnTextRoundTrip(b);
  }

  /** Distinct mate values print differently. */
  lemma MateTextInjective(a: int, b: int)
    requires MateText(a) == MateText(b)
    ensures a == b
  {
    var ta, tb := MateText(a), MateText(b);
    assert ta[0] == (if a > 0 then '-' else 'M');
    assert tb[0] == (if b > 0 then '-' else 'M');
    if a > 0 && b > 0 {
      assert ta[2..] == NatToString(a) && tb[2..] == NatToString(b);
      NatToStringInjective(a, b);
    } else if a <= 0 && b <= 0 {
      assert ta[1..] == NatToString(-a) && tb[1..] == NatToString(-b);
      NatToStringInjective(-a, -b);
    }
  }

  /** A mate text is printed exactly when the centipawn score is `None`. */
  lemma MateTextIffMateScore(s: Score)
    ensures 'M' in ScoreText(s) <==> s.Mate?
  {
    match s
    case Mate(m) =>
      if m > 0 {
        assert MateText(m)[1] == 'M';
      } else {
        assert MateText(m)[0] == 'M';
      }
    case Cp(cp) =>
      var a := if cp < 0 then -cp else cp;
      var t := CentipawnText(cp);
      var whole := NatToString(a / 100);
      forall i | 0 <= i < |t| ensures t[i] != 'M' {
        var pre := if cp < 0 then "-" else "";
        assert t == pre + whole + "." + [DigitChar(a % 100 / 10), DigitChar(a % 10)];
        if i >= |pre| && i < |pre| + |whole| {
          assert t[i] == whole[i - |pre|];
        }
      }
  }

  /** A depth of `None` or 0 falls back to the time limit. */
  lemma LimitExamples(t: real)
    ensures ChooseLimit(None, t) == TimeLimit(t)
    ensures ChooseLimit(Some(0), t) == TimeLimit(t)
    ensures ChooseLimit(Some(12), t) == DepthLimit(12)
  {
  }

  /**
   * The mate sign follows only the raw relative value, never the side to
   * move: a mate in 3 for the side to move prints `-M3`, a mate value of 0
   * prints `M0`, and being mated in 2 prints `M2`.
   */
  lemma MateTextExamples()
    ensures ScoreText(Mate(3)) == "-M3"
    ensures ScoreText(Mate(0)) == "M0"
    ensures ScoreText(Mate(-2)) == "M2"
  {
  }

  // ---------------------------------------------------------------------------
  // The analysis loop
  // ---------------------------------------------------------------------------

  /** One printed line: move number, colour, move and evaluation text. */
  datatype Evaluation<M> = Evaluation(moveNumber: nat, color: string, move: M, score: string)

  /** The line printed for half-move `idx`, analysing the board after it. */
  function EvaluationAt<B, M>(lib: ChessLib<B, M>, game: Game<B, M>, engine: (B, Limit) -> Score, limit: Limit, idx: nat)
    : Evaluation<M>
    requires idx < |game.moves|
  {
    Evaluation(MoveNumber(idx), ColorLabel(idx), game.moves[idx],
               ScoreText(engine(PositionAfter(lib, game, idx), limit)))
  }

  /** The lines printed for the half-moves listed in `w`, in that order. */
  function EvaluationsOf<B, M>(lib: ChessLib<B, M>, game: Game<B, M>, engine: (B, Limit) -> Score, limit: Limit, w: seq<nat>)
    : seq<Evaluation<M>>
    requires forall i :: 0 <= i < |w| ==> w[i] < |game.moves|
  {
    if |w| == 0 then []
    else EvaluationsOf(lib, game, engine, limit, w[..|w| - 1]) + [EvaluationAt(lib, game, engine, limit, w[|w| - 1])]
  }

  /** The `j`-th line is the one for the `j`-th listed half-move. */
  lemma {:induction false} EvaluationsOfAt<B, M>(lib: ChessLib<B, M>, game: Game<B, M>, engine: (B, Limit) -> Score, limit: Limit, w: seq<nat>)
    requires forall i :: 0 <= i < |w| ==> w[i] < |game.moves|
    ensures |EvaluationsOf(lib, game, engine, limit, w)| == |w|
    ensures forall j :: 0 <= j < |w| ==> EvaluationsOf(lib, game, engine, limit, w)[j] == EvaluationAt(lib, game, engine, limit, w[j])
  {
    if |w| > 0 {
      var init := w[..|w| - 1];
      EvaluationsOfAt(lib, game, engine, limit, init);
      var r := EvaluationsOf(lib, game, engine, limit, w);
      assert r == EvaluationsOf(lib, game, engine, limit, init) + [EvaluationAt(lib, game, engine, limit, w[|w| - 1])];
      forall j | 0 <= j < |w| ensures r[j] == EvaluationAt(lib, game, engine, limit, w[j]) {
        if j < |w| - 1 {
          assert w[j] == init[j];
        }
      }
    }
  }

  /** Analysing one more half-move of the window adds its line at the end. */
  lemma EvaluationsStep<B, M>(lib: ChessLib<B, M>, game: Game<B, M>, engine: (B, Limit) -> Score, limit: Limit,
                              idx: nat, start: int, end: int)
    requires idx < |game.moves| && start <= MoveNumber(idx) <= end
    ensures EvaluationsOf(lib, game, engine, limit, Window(idx + 1, start, end))
      == EvaluationsOf(lib, game, engine, limit, Window(idx, start, end)) + [EvaluationAt(lib, game, engine, limit, idx)]
  {
    var w := Window(idx, start, end);
    WindowStep(idx, start, end);
    assert (w + [idx])[..|w|] == w;
  }

  /**
   * `analyze_game_between_moves_with_stockfish` after the game is read and
   * the engine configured: one evaluation per half-move of the window, in
   * order, each of the board with that half-move and all before it pushed,
   * under the limit `depth` selects; `pushed` is the number of moves the
   * loop pushed before it ended or broke off.
   */
  method AnalyzeGameBetweenMoves<B, M>(
    lib: ChessLib<B, M>, game: Game<B, M>, engine: (B, Limit) -> Score,
    startMove: int, endMove: int, analysisTime: real, depth: Option<int>)
    returns (evals: seq<Evaluation<M>>, pushed: nat)
    ensures evals == EvaluationsOf(lib, game, engine, ChooseLimit(depth, analysisTime),
                                   Window(|game.moves|, startMove, endMove))
    ensures pushed == PliesPushed(|game.moves|, startMove, endMove)
  {
    var n := |game.moves|;
    ghost var lim := ChooseLimit(depth, analysisTime);
    var board := game.start;
    evals, pushed := [], 0;
    var idx := 0;
    while idx < n
      invariant 0 <= idx <= n && idx <= BreakIndex(startMove, endMove)
      invariant pushed == idx
      invariant board == Replay(lib, game.start, game.moves[..idx])
      invariant evals == EvaluationsOf(lib, game, engine, lim, Window(idx, startMove, endMove))
    {
      ReplayPrefix(lib, game.start, game.moves, idx);
      board := lib.push(board, game.moves[idx]);
      pushed := pushed + 1;
      var moveNumber := MoveNumber(idx);
      BreakIndexExact(idx, startMove, endMove);
      if moveNumber >= startMove {
        if moveNumber > endMove {
          WindowBeforeBreak(n, startMove, endMove);
          assert evals == EvaluationsOf(lib, game, engine, lim, Window(n, startMove, endMove));
          assert pushed == PliesPushed(n, startMove, endMove);
          break;
        }
        var limit := ChooseLimit(depth, analysisTime);
        var score := engine(board, limit);
        var line := Evaluation(moveNumber, ColorLabel(idx), game.moves[idx], ScoreText(score));
        assert line == EvaluationAt(lib, game, engine, lim, idx);
        EvaluationsStep(lib, game, engine, lim, idx, startMove, endMove);
        evals := evals + [line];
      } else {
        WindowStep(idx, startMove, endMove);
      }
      idx := idx + 1;
    }
  }

  /**
   * Moves 8 to 10 of a 20-half-move game: half-moves 14 to 19 are analysed
   * and all 20 moves are pushed.
   */
  lemma WindowExample()
    ensures Window(20, 8, 10) == [14, 15, 16, 17, 18, 19]
    ensures PliesPushed(20, 8, 10) == 20
  {
  }
}
