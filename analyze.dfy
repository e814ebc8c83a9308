/**
 * analyze.py: the material-signature matcher, the first-match scan of one
 * game and the loop over every game of a file.
 */
module Analyze {
  import opened Wrappers
  import opened Chess

  // ---------------------------------------------------------------------------
  // Counting
  // ---------------------------------------------------------------------------

  /** Python's `lst.count(x)`. */
  function Count<T(==)>(xs: seq<T>, x: T): (r: nat)
    ensures r <= |xs|
    ensures r == 0 <==> x !in xs
  {
    if |xs| == 0 then 0 else (if xs[0] == x then 1 else 0) + Count(xs[1..], x)
  }

  /** `lst.count(x)` is the multiplicity of `x` in the list's multiset. */
  lemma {:induction false} CountIsMultiplicity<T>(xs: seq<T>, x: T)
    ensures Count(xs, x) == multiset(xs)[x]
  {
    if |xs| > 0 {
      assert xs == [xs[0]] + xs[1..];
      assert multiset(xs) == multiset{xs[0]} + multiset(xs[1..]);
      CountIsMultiplicity(xs[1..], x);
    }
  }

  // ---------------------------------------------------------------------------
  // The matcher
  // ---------------------------------------------------------------------------

  /** The list of allowed pieces that constrains colour `c`. */
  function Allowed(c: Color, white: seq<string>, black: seq<string>): seq<string>
  {
    if c == White then white else black
  }

  /**
   * The comparison made for one kind: the number of White pieces of that
   * kind equals the number of entries `'K'`/`'Q'`/... in the White list, and
   * the same for Black with the lower-case letter in the Black list.
   */
  predicate KindMatches(pieces: seq<Piece>, white: seq<string>, black: seq<string>, k: Kind)
  {
    Count(pieces, Piece(White, k)) == Count(white, Symbol(Piece(White, k)))
    && Count(pieces, Piece(Black, k)) == Count(black, Symbol(Piece(Black, k)))
  }

  /** All twelve per-kind, per-side comparisons succeed. */
  predicate MeetsCriteria(pieces: seq<Piece>, white: seq<string>, black: seq<string>)
  {
    forall k: Kind :: KindMatches(pieces, white, black, k)
  }

  /**
   * `position_meets_criteria`, given the values of the board's piece map:
   * walks the kinds `K, Q, R, B, N, P` and returns false at the first tally
   * that differs from the count in the corresponding list.
   */
  method PositionMeetsCriteria(pieces: seq<Piece>, white: seq<string>, black: seq<string>)
    returns (ok: bool)
    ensures ok <==> MeetsCriteria(pieces, white, black)
  {
    for i := 0 to |Kinds|
      invariant forall j :: 0 <= j < i ==> KindMatches(pieces, white, black, Kinds[j])
    {
      var k := Kinds[i];
      if Count(pieces, Piece(White, k)) != Count(white, Symbol(Piece(White, k))) {
        assert !KindMatches(pieces, white, black, k);
        return false;
      }
      if Count(pieces, Piece(Black, k)) != Count(black, Symbol(Piece(Black, k))) {
        assert !KindMatches(pieces, white, black, k);
        return false;
      }
    }
    forall k: Kind ensures KindMatches(pieces, white, black, k) {
      KindsComplete(k);
    }
    return true;
  }

  // ---------------------------------------------------------------------------
  // What the matcher means: an exact inventory
  // ---------------------------------------------------------------------------

  /**
   * `chess.Piece.from_symbol(e)` restricted to side `c`: the piece of colour
   * `c` whose symbol is `e`, if there is one.
   */
  function PieceOfSymbol(c: Color, e: string): (r: Option<Piece>)
    ensures r.Some? ==> r.value.color == c && Symbol(r.value) == e
    ensures r.None? ==> forall k :: Symbol(Piece(c, k)) != e
  {
    if e == Symbol(Piece(c, King)) then Some(Piece(c, King))
    else if e == Symbol(Piece(c, Queen)) then Some(Piece(c, Queen))
    else if e == Symbol(Piece(c, Rook)) then Some(Piece(c, Rook))
    else if e == Symbol(Piece(c, Bishop)) then Some(Piece(c, Bishop))
    else if e == Symbol(Piece(c, Knight)) then Some(Piece(c, Knight))
    else if e == Symbol(Piece(c, Pawn)) then Some(Piece(c, Pawn))
    else None
  }

  /** The pieces of colour `c` that the entries of `xs` name. */
  function Denoted(c: Color, xs: seq<string>): multiset<Piece>
  {
    if |xs| == 0 then multiset{}
    else
      (match PieceOfSymbol(c, xs[0]) case Some(p) => multiset{p} case None => multiset{})
      + Denoted(c, xs[1..])
  }

  /** The exact piece inventory the two allowed lists describe. */
  function Inventory(white: seq<string>, black: seq<string>): multiset<Piece>
  {
    Denoted(White, white) + Denoted(Black, black)
  }

  lemma {:induction false} DenotedCount(c: Color, xs: seq<string>, p: Piece)
    ensures Denoted(c, xs)[p] == if p.color == c then Count(xs, Symbol(p)) else 0
  {
    if |xs| > 0 {
      DenotedCount(c, xs[1..], p);
      var o := PieceOfSymbol(c, xs[0]);
      if o.Some? && o.value == p {
        assert xs[0] == Symbol(p);
      } else if p.color == c && xs[0] == Symbol(p) {
        assert o.Some?;
        SymbolInjective(o.value, p);
      }
    }
  }

  /**
   * The matcher holds exactly when the multiset of pieces on the board is
   * the inventory named by the recognised entries of the two lists: exact
   * counts, neither a subset nor a superset.
   */
  lemma MatchIsExactInventory(pieces: seq<Piece>, white: seq<string>, black: seq<string>)
    ensures MeetsCriteria(pieces, white, black) <==> multiset(pieces) == Inventory(white, black)
  {
    var inv := Inventory(white, black);
    forall p: Piece
      ensures inv[p] == Count(Allowed(p.color, white, black), Symbol(p))
      ensures Count(pieces, p) == multiset(pieces)[p]
    {
      DenotedCount(White, white, p);
      DenotedCount(Black, black, p);
      CountIsMultiplicity(pieces, p);
    }
    if MeetsCriteria(pieces, white, black) {
      forall p: Piece ensures multiset(pieces)[p] == inv[p] {
        assert KindMatches(pieces, white, black, p.kind);
      }
    } else {
      var k: Kind :| !KindMatches(pieces, white, black, k);
      assert multiset(pieces)[Piece(White, k)] != inv[Piece(White, k)]
        || multiset(pieces)[Piece(Black, k)] != inv[Piece(Black, k)];
    }
  }

  /** Adding one piece of any kind to a matching board breaks the match. */
  lemma ExtraPieceBreaksMatch(pieces: seq<Piece>, white: seq<string>, black: seq<string>, p: Piece)
    requires MeetsCriteria(pieces, white, black)
    ensures !MeetsCriteria(pieces + [p], white, black)
  {
    MatchIsExactInventory(pieces, white, black);
    MatchIsExactInventory(pieces + [p], white, black);
    assert multiset(pieces + [p]) == multiset(pieces) + multiset{p};
  }

  /** Removing any one piece from a matching board breaks the match. */
  lemma MissingPieceBreaksMatch(pieces: seq<Piece>, white: seq<string>, black: seq<string>, i: nat)
    requires MeetsCriteria(pieces, white, black)
    requires i < |pieces|
    ensures !MeetsCriteria(pieces[..i] + pieces[i + 1..], white, black)
  {
    var rest := pieces[..i] + pieces[i + 1..];
    assert pieces == pieces[..i] + [pieces[i]] + pieces[i + 1..];
    assert multiset(pieces) == multiset(rest) + multiset{pieces[i]};
    MatchIsExactInventory(pieces, white, black);
    MatchIsExactInventory(rest, white, black);
  }

  /**
   * Only the multiset of pieces matters (not the squares they stand on or
   * the order `piece_map` lists them in), and reordering either allowed
   * list changes nothing.
   */
  lemma MatchIgnoresOrder(
    pieces: seq<Piece>, white: seq<string>, black: seq<string>,
    pieces': seq<Piece>, white': seq<string>, black': seq<string>)
    requires multiset(pieces) == multiset(pieces')
    requires multiset(white) == multiset(white') && multiset(black) == multiset(black')
    ensures MeetsCriteria(pieces, white, black) <==> MeetsCriteria(pieces', white', black')
  {
    forall k: Kind
      ensures KindMatches(pieces, white, black, k) <==> KindMatches(pieces', white', black', k)
    {
      CountIsMultiplicity(pieces, Piece(White, k));
      CountIsMultiplicity(pieces', Piece(White, k));
      CountIsMultiplicity(pieces, Piece(Black, k));
      CountIsMultiplicity(pieces', Piece(Black, k));
      CountIsMultiplicity(white, Symbol(Piece(White, k)));
      CountIsMultiplicity(white', Symbol(Piece(White, k)));
      CountIsMultiplicity(black, Symbol(Piece(Black, k)));
      CountIsMultiplicity(black', Symbol(Piece(Black, k)));
    }
  }

  /** Appending entries that all differ from `y` leaves the count of `y` unchanged. */
  lemma CountAppendOthers<T>(xs: seq<T>, ys: seq<T>, y: T)
    requires forall i :: 0 <= i < |ys| ==> ys[i] != y
    ensures Count(xs + ys, y) == Count(xs, y)
  {
    CountIsMultiplicity(xs + ys, y);
    CountIsMultiplicity(xs, y);
    assert multiset(xs + ys) == multiset(xs) + multiset(ys);
    assert y !in multiset(ys);
  }

  /**
   * Entries the code never counts are ignored: appending to the White list
   * any entries that are not upper-case piece letters, and to the Black
   * list any that are not lower-case piece letters, changes nothing. Either
   * addition may be empty, so each list can be extended on its own.
   */
  lemma UncountedEntriesIgnored(pieces: seq<Piece>, white: seq<string>, black: seq<string>, xs: seq<string>, ys: seq<string>)
    requires forall i :: 0 <= i < |xs| ==> PieceOfSymbol(White, xs[i]).None?
    requires forall i :: 0 <= i < |ys| ==> PieceOfSymbol(Black, ys[i]).None?
    ensures MeetsCriteria(pieces, white + xs, black + ys) <==> MeetsCriteria(pieces, white, black)
  {
    forall k: Kind
      ensures KindMatches(pieces, white + xs, black + ys, k) <==> KindMatches(pieces, white, black, k)
    {
      CountAppendOthers(white, xs, Symbol(Piece(White, k)));
      CountAppendOthers(black, ys, Symbol(Piece(Black, k)));
    }
  }

  /** A lower-case letter in the White list, or an upper-case one in the Black list, is one such entry. */
  lemma WrongCaseIgnored(pieces: seq<Piece>, white: seq<string>, black: seq<string>, k: Kind)
    ensures MeetsCriteria(pieces, white + [Symbol(Piece(Black, k))], black) <==> MeetsCriteria(pieces, white, black)
    ensures MeetsCriteria(pieces, white, black + [Symbol(Piece(White, k))]) <==> MeetsCriteria(pieces, white, black)
  {
    UncountedEntriesIgnored(pieces, white, black, [Symbol(Piece(Black, k))], []);
    assert black + [] == black;
    UncountedEntriesIgnored(pieces, white, black, [], [Symbol(Piece(White, k))]);
    assert white + [] == white;
  }

  // ---------------------------------------------------------------------------
  // Scanning one game
  // ---------------------------------------------------------------------------

  /** What `analyze_game_for_position` reports (it prints it). */
  datatype ScanResult = Found(fen: string) | NotFound(url: string)

  /** `game.headers.get("Site", "URL not found")`. */
  function SiteOf(headers: map<string, string>): (url: string)
    ensures "Site" in headers ==> url == headers["Site"]
    ensures "Site" !in headers ==> url == "URL not found"
  {
    if "Site" in headers then headers["Site"] else "URL not found"
  }

  /** The position after half-move `k` meets the criteria. */
  predicate MatchesAfter<B, M>(lib: ChessLib<B, M>, game: Game<B, M>, white: seq<string>, black: seq<string>, k: nat)
    requires k < |game.moves|
  {
    MeetsCriteria(lib.pieces(PositionAfter(lib, game, k)), white, black)
  }

  /** The first half-move at or after `k` whose resulting position matches. */
  function FirstMatchFrom<B, M>(lib: ChessLib<B, M>, game: Game<B, M>, white: seq<string>, black: seq<string>, k: nat)
    : (r: Option<nat>)
    decreases |game.moves| - k
    ensures r.Some? ==> k <= r.value < |game.moves| && MatchesAfter(lib, game, white, black, r.value)
    ensures r.Some? ==> forall j :: k <= j < r.value ==> !MatchesAfter(lib, game, white, black, j)
    ensures r.None? ==> forall j :: k <= j < |game.moves| ==> !MatchesAfter(lib, game, white, black, j)
  {
    if k >= |game.moves| then None
    else if MatchesAfter(lib, game, white, black, k) then Some(k)
    else FirstMatchFrom(lib, game, white, black, k + 1)
  }

  /**
   * The outcome of scanning a game: the FEN of the first post-move position
   * that matches, or else the game's `Site` tag (or the sentinel). The
   * start position, before any move, is never tested.
   */
  function ScanGame<B, M>(lib: ChessLib<B, M>, game: Game<B, M>, white: seq<string>, black: seq<string>)
    : (r: ScanResult)
    ensures r.NotFound? <==> forall k :: 0 <= k < |game.moves| ==> !MatchesAfter(lib, game, white, black, k)
    ensures r.NotFound? ==> r.url == SiteOf(game.headers)
    ensures r.Found? ==>
      (exists k :: 0 <= k < |game.moves| && MatchesAfter(lib, game, white, black, k)
        && r.fen == lib.fen(PositionAfter(lib, game, k))
        && (forall j :: 0 <= j < k ==> !MatchesAfter(lib, game, white, black, j)))
  {
    match FirstMatchFrom(lib, game, white, black, 0)
    case Some(k) => Found(lib.fen(PositionAfter(lib, game, k)))
    case None => NotFound(SiteOf(game.headers))
  }

  /**
   * `analyze_game_for_position`: pushes the moves one at a time onto the
   * start board, tests the board after each push, and stops at the first
   * match.
   */
  method AnalyzeGameForPosition<B, M>(lib: ChessLib<B, M>, game: Game<B, M>, white: seq<string>, black: seq<string>)
    returns (r: ScanResult)
    ensures r == ScanGame(lib, game, white, black)
  {
    var board := game.start;
    for idx := 0 to |game.moves|
      invariant board == Replay(lib, game.start, game.moves[..idx])
      invariant FirstMatchFrom(lib, game, white, black, idx) == FirstMatchFrom(lib, game, white, black, 0)
    {
      ReplayPrefix(lib, game.start, game.moves, idx);
      board := lib.push(board, game.moves[idx]);
      var ok := PositionMeetsCriteria(lib.pieces(board), white, black);
      if ok {
        return Found(lib.fen(board));
      }
    }
    return NotFound(SiteOf(game.headers));
  }

  /** A game without moves never matches, whatever its start position. */
  lemma ZeroMoveGameNotFound<B, M>(lib: ChessLib<B, M>, start: B, headers: map<string, string>, white: seq<string>, black: seq<string>)
    ensures ScanGame(lib, Game(start, [], headers), white, black) == NotFound(SiteOf(headers))
  {
  }

  /**
   * Once a match is found, moves after it play no part: the game extended
   * by any further moves reports the same position.
   */
  lemma LaterMovesIrrelevant<B, M>(lib: ChessLib<B, M>, game: Game<B, M>, white: seq<string>, black: seq<string>, extra: seq<M>)
    requires ScanGame(lib, game, white, black).Found?
    ensures ScanGame(lib, game.(moves := game.moves + extra), white, black) == ScanGame(lib, game, white, black)
  {
    var longer := game.(moves := game.moves + extra);
    forall j | 0 <= j < |game.moves|
      ensures PositionAfter(lib, longer, j) == PositionAfter(lib, game, j)
      ensures MatchesAfter(lib, longer, white, black, j) == MatchesAfter(lib, game, white, black, j)
    {
      assert longer.moves[..j + 1] == game.moves[..j + 1];
    }
    var f := FirstMatchFrom(lib, game, white, black, 0);
    var g := FirstMatchFrom(lib, longer, white, black, 0);
    assert f.Some?;
    assert g == f;
  }

  // ---------------------------------------------------------------------------
  // Every game of a file
  // ---------------------------------------------------------------------------

  /**
   * `analyze_games_in_file`, with the games `chess.pgn.read_game` returns
   * until end of file given as a list: one scan result per game, in order.
   */
  method AnalyzeGamesInFile<B, M>(lib: ChessLib<B, M>, games: seq<Game<B, M>>, white: seq<string>, black: seq<string>)
    returns (results: seq<ScanResult>)
    ensures |results| == |games|
    ensures forall i :: 0 <= i < |games| ==> results[i] == ScanGame(lib, games[i], white, black)
  {
    results := [];
    var i := 0;
    while i < |games|
      invariant 0 <= i <= |games|
      invariant |results| == i
      invariant forall j :: 0 <= j < i ==> results[j] == ScanGame(lib, games[j], white, black)
    {
      var r := AnalyzeGameForPosition(lib, games[i], white, black);
      results := results + [r];
      i := i + 1;
    }
  }
}
