/**
 * The part of the python-chess library the program relies on, as an
 * abstract interface: piece colours, kinds and symbols, a game as a start
 * board, a main line of moves and its header tags, and the library itself
 * as a record of total functions over an opaque board type `B` and move
 * type `M` (move legality, FEN generation and PGN parsing stay inside it).
 */
module Chess {

  datatype Color = White | Black

  datatype Kind = King | Queen | Rook | Bishop | Knight | Pawn

  datatype Piece = Piece(color: Color, kind: Kind)

  /** The order `['K', 'Q', 'R', 'B', 'N', 'P']` in which kinds are tallied. */
  const Kinds: seq<Kind> := [King, Queen, Rook, Bishop, Knight, Pawn]

  lemma KindsComplete(k: Kind)
    ensures k in Kinds
  {
    match k
    case King => assert Kinds[0] == k;
    case Queen => assert Kinds[1] == k;
    case Rook => assert Kinds[2] == k;
    case Bishop => assert Kinds[3] == k;
    case Knight => assert Kinds[4] == k;
    case Pawn => assert Kinds[5] == k;
  }

  /** The FEN letter of a White piece of kind `k`. */
  function UpperLetter(k: Kind): char
  {
    match k
    case King => 'K'
    case Queen => 'Q'
    case Rook => 'R'
    case Bishop => 'B'
    case Knight => 'N'
    case Pawn => 'P'
  }

  /** The FEN letter of a Black piece of kind `k`. */
  function LowerLetter(k: Kind): char
  {
    match k
    case King => 'k'
    case Queen => 'q'
    case Rook => 'r'
    case Bishop => 'b'
    case Knight => 'n'
    case Pawn => 'p'
  }

  /** `piece.symbol()`: upper case for White, lower case for Black. */
  function Symbol(p: Piece): string
  {
    if p.color == White then [UpperLetter(p.kind)] else [LowerLetter(p.kind)]
  }

  /** Different pieces have different symbols. */
  lemma SymbolInjective(p: Piece, q: Piece)
    requires Symbol(p) == Symbol(q)
    ensures p == q
  {
    assert Symbol(p)[0] == Symbol(q)[0];
  }

  /**
   * python-chess as seen by the program: `board.push(move)`, the values of
   * `board.piece_map()` (one piece per occupied square, in the library's
   * square order) and `board.fen()`.
   */
  datatype ChessLib<!B, !M> = ChessLib(push: (B, M) -> B, pieces: B -> seq<Piece>, fen: B -> string)

  /**
   * A parsed game: `game.board()`, `game.mainline_moves()` and
   * `game.headers`.
   */
  datatype Game<B, M> = Game(start: B, moves: seq<M>, headers: map<string, string>)

  /** The board reached by pushing `moves`, in order, onto `b`. */
  function Replay<B, M>(lib: ChessLib<B, M>, b: B, moves: seq<M>): B
  {
    if |moves| == 0 then b else lib.push(Replay(lib, b, moves[..|moves| - 1]), moves[|moves| - 1])
  }

  /** Replaying one more move of the same list. */
  lemma ReplayPrefix<B, M>(lib: ChessLib<B, M>, b: B, moves: seq<M>, k: nat)
    requires k < |moves|
    ensures Replay(lib, b, moves[..k + 1]) == lib.push(Replay(lib, b, moves[..k]), moves[k])
  {
    assert moves[..k + 1][..k] == moves[..k];
  }

  /** The board after the move with half-move index `k` has been pushed. */
  function PositionAfter<B, M>(lib: ChessLib<B, M>, game: Game<B, M>, k: nat): B
    requires k < |game.moves|
  {
    Replay(lib, game.start, game.moves[..k + 1])
  }
}
