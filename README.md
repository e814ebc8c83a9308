# endgameAssistant, modelled in Dafny

endgameAssistant is a small chess utility. It does four things:

- It fetches a user's games from the Lichess archive and saves them to a file as text blocks separated by blank lines.
- It scans each game for the first position whose material is exactly a given piece inventory per side.
- It asks a UCI engine to evaluate every move in a move-number window and prints each score.
- Its React viewer steps cyclically through a list of FEN entries.

This project models the program's own logic and proves what that logic guarantees. The modules are:

- `Wrappers` (`wrappers.dfy`): `Option` and `Result`.
- `Strings` (`strings.dfy`): the string operations the program depends on, with the semantics of its languages:
  - `split` with a non-empty separator, using leftmost non-overlapping occurrences;
  - `join`;
  - Python's `strip()` with no argument, using the `isspace` character set;
  - `str(n)` for a natural number, with a parser that reads it back.
- `Chess` (`chess.dfy`): the part of python-chess the program sees. Colours, kinds and FEN symbols are modelled. The library itself is a record `ChessLib` of three total functions over an opaque board type: `push`, the values of `piece_map()`, and `fen()`. A game is a start board, a main line of moves and a header map. `Replay` pushes a list of moves in order.
- `Analyze` (`analyze.dfy`): `position_meets_criteria`, `analyze_game_for_position` and the per-game loop of `analyze_games_in_file`.
  - The matcher is a method with the source's early-return loop over `K, Q, R, B, N, P`. It is proved equal to an exact-count predicate.
  - That predicate is then shown to mean "the board's multiset of pieces is exactly the inventory the two lists name".
  - The scan is a method that pushes moves onto a board. It is proved equal to `ScanGame`, whose contract characterises the first match.
- `GameAnalysis` (`game_analysis.dfy`): the loop of `analyze_game_between_moves_with_stockfish`.
  - The engine is an uninterpreted function from a board and a limit to a score relative to the side to move.
  - The printed lines are returned as a sequence of `Evaluation` records, together with the number of moves pushed.
  - The method is proved to produce one line per half-move of `Window`, in order. `Window` is proved to be exactly the half-moves whose move number lies in `[start, end]`.
- `Utils` (`utils.dfy`): `fetch_lichess_games` once the HTTP reply is in hand, plus `save_games_to_file` and `load_games_from_file`.
  - A file is a `TextFile` object whose `content` is overwritten or appended to.
  - Splitting and joining are proved to round-trip under precise side conditions, and so do save and load. One lemma shows the round trip failing once those conditions are dropped.
- `App` (`frontend/src/App.js`): the component's `fenData` and `currentIndex` state, as a `Viewer` class.
  - The two navigation handlers are methods. The index is a JavaScript number (an integer or `NaN`), and `%` truncates toward zero as in JavaScript.
  - The line filter after `JSON.parse` is modelled, as is the board orientation derived from the FEN's active-colour field.

I/O is abstracted as follows:

- The HTTP reply is a `(status, text)` pair.
- A file is its contents.
- The games `chess.pgn.read_game` returns until end of file are a list.
- `engine.analyse` is a function parameter.
- `JSON.parse` is a partial function parameter, with `None` standing for a thrown exception.
- Console output is returned as values.

Two details of the score text are modelled exactly as the code writes them:

- **Mate score sign.** The code picks the sign from the raw relative mate value alone: `-M<m>` when `m > 0`, otherwise `M<-m>` (game_analysis.py:39-43). It never consults the side to move. `GameAnalysis.MateText` and `GameAnalysis.MateTextExamples` state this.
- **Centipawn perspective.** The comment at game_analysis.py:35 says the score is put in White's perspective. The code prints the relative score unchanged (game_analysis.py:36, 46), and so does the model.

## Model

| member | source | states |
|---|---|---|
| Analyze.Count | analyze.py:19-20 | `list.count(x)`: at most the list's length, and 0 exactly when `x` is absent |
| Analyze.CountIsMultiplicity | analyze.py:19-20 | `list.count(x)` is the multiplicity of `x` in the list's multiset |
| Analyze.PositionMeetsCriteria | analyze.py:19-29 | true iff, for every kind, the White count equals the number of upper-case letters for it in the White list and the Black count equals the number of lower-case letters in the Black list |
| Analyze.PieceOfSymbol | analyze.py:19-20 | a symbol names a piece of the given colour exactly when it is that piece's FEN letter |
| Analyze.DenotedCount | analyze.py:24-26 | the inventory a list names holds each piece of that side as often as its letter occurs in the list, and no piece of the other side |
| Analyze.MatchIsExactInventory | analyze.py:19-29 | the matcher holds iff the board's multiset of pieces equals the named inventory: exact counts, not a subset or superset |
| Analyze.ExtraPieceBreaksMatch | analyze.py:23-27 | adding any one piece to a matching board makes it fail |
| Analyze.MissingPieceBreaksMatch | analyze.py:23-27 | removing any one piece from a matching board makes it fail |
| Analyze.MatchIgnoresOrder | analyze.py:19-26 | the result depends only on the multiset of pieces and the multisets of the two lists |
| Analyze.UncountedEntriesIgnored | analyze.py:24-26 | appending to the White list any entries that are not upper-case piece letters, and to the Black list any that are not lower-case piece letters, changes nothing; either addition may be empty |
| Analyze.WrongCaseIgnored | analyze.py:24-26 | a lower-case piece letter added to the White list alone, or an upper-case one added to the Black list alone, changes nothing |
| Analyze.SiteOf | analyze.py:54 | the `Site` header when present, otherwise `"URL not found"` |
| Analyze.FirstMatchFrom | analyze.py:45-51 | returns the least half-move at or after `k` whose post-move position matches, or none when no later position matches |
| Analyze.ScanGame | analyze.py:43-55 | the result is not-found iff no post-move position matches, and then carries the `Site` header or `"URL not found"`; a found result is the FEN of a matching position with every earlier one failing |
| Analyze.AnalyzeGameForPosition | analyze.py:43-55 | pushing moves one at a time and stopping at the first match yields exactly `ScanGame` |
| Analyze.ZeroMoveGameNotFound | analyze.py:43-47 | the start position is never tested, so a game without moves is always not-found |
| Analyze.LaterMovesIrrelevant | analyze.py:45-51 | once a game matches, appending any moves leaves its result unchanged: later moves play no part |
| Analyze.AnalyzeGamesInFile | analyze.py:65-70 | one scan result per game, in file order |
| Chess.KindsComplete | analyze.py:23 | the tallied list `K, Q, R, B, N, P` covers every kind |
| Chess.SymbolInjective | analyze.py:19-20 | distinct pieces have distinct FEN symbols |
| Chess.ReplayPrefix | analyze.py:45-46 | pushing move `k` onto the board after moves `0..k-1` gives the board after moves `0..k` |
| GameAnalysis.MoveNumber | game_analysis.py:20 | `(idx // 2) + 1` is the `k >= 1` with `2(k-1) <= idx < 2k` |
| GameAnalysis.ColorLabel | game_analysis.py:48 | `White` or `Black`, `White` exactly for even `idx` |
| GameAnalysis.CentipawnText | game_analysis.py:46 | at least four characters with a point third from the end, and a leading minus sign exactly for negative `cp`; the value itself is fixed by `CentipawnTextRoundTrip` |
| GameAnalysis.ScoreText | game_analysis.py:36-46 | a leading `-` marks a negative centipawn score but a positive mate value: the two conventions are opposite |
| GameAnalysis.MovePairShareNumber | game_analysis.py:20 | half-moves `2m` and `2m+1` both have move number `m+1`; the colour label (line 48) is White for the even and Black for the odd one |
| GameAnalysis.WindowExact | game_analysis.py:16-25 | the analysed half-moves are exactly those below the game length whose move number lies in `[start, end]`, in increasing order, and none when `end < start` |
| GameAnalysis.WindowStep | game_analysis.py:16-25 | one more half-move enters the window iff its move number lies in `[start, end]` |
| GameAnalysis.BreakIndexExact | game_analysis.py:22-25 | the loop breaks at half-move `idx` iff its move number is at least `start` and exceeds `end` |
| GameAnalysis.WindowBeforeBreak | game_analysis.py:24-25 | no half-move at or after the break is analysed |
| GameAnalysis.ChooseLimit | game_analysis.py:28-31 | a depth limit with that depth iff `depth` is truthy, otherwise a time limit of `analysis_time` |
| GameAnalysis.LimitExamples | game_analysis.py:28-31 | `None` and depth 0 fall back to the time limit; depth 12 gives a depth limit |
| GameAnalysis.MateText | game_analysis.py:39-43 | the text starts with `-` iff the mate value is positive, `M` follows the optional sign, and the rest is the decimal digits of the value's magnitude, reading back as `|m|` |
| GameAnalysis.MateTextInjective | game_analysis.py:39-43 | distinct mate values print differently |
| GameAnalysis.MateTextExamples | game_analysis.py:39-43 | mate 3 prints `-M3`, mate 0 prints `M0`, mate -2 prints `M2`, whatever the side to move |
| GameAnalysis.MateTextIffMateScore | game_analysis.py:36-46 | a printed score contains `M` iff the centipawn score is `None` (a mate score) |
| GameAnalysis.CentipawnTextRoundTrip | game_analysis.py:46 | the two-decimal text reads back as exactly the centipawn value, so it denotes `cp / 100` |
| GameAnalysis.CentipawnTextInjective | game_analysis.py:46 | distinct centipawn values print differently |
| GameAnalysis.EvaluationsOfAt | game_analysis.py:16-49 | the `j`-th line is the one for the `j`-th analysed half-move, and there is one line per analysed half-move |
| GameAnalysis.EvaluationsStep | game_analysis.py:16-49 | analysing one more half-move of the window appends its line |
| GameAnalysis.AnalyzeGameBetweenMoves | game_analysis.py:15-49 | the printed lines are, in order, the evaluation of every half-move of the window, each of the board with that move and all before it pushed, under the chosen limit; the number of moves pushed stops one past the break |
| GameAnalysis.WindowExample | game_analysis.py:55 | moves 8 to 10 of a 20-half-move game analyse half-moves 14 to 19 |
| Strings.FindFrom | utils.py:28 | the first occurrence of the separator at or after `k`, or none |
| Strings.Split | utils.py:28 | at least one piece, no piece contains the separator, and joining the pieces with it gives the text back |
| Strings.TrimStart | utils.py:28 | drops exactly the leading whitespace |
| Strings.TrimEnd | utils.py:28 | drops exactly the trailing whitespace |
| Strings.Strip | utils.py:28 | the result is the slice of the input with only whitespace before and after it, and it neither starts nor ends with whitespace |
| Strings.StripAppendSpace | utils.py:59 | stripping a stripped text followed by whitespace gives that text |
| Strings.StripIdempotent | utils.py:59 | stripping twice is stripping once |
| Strings.JoinSnoc | utils.py:44-46 | joining one more game adds a separator and that game |
| Strings.SplitCons | utils.py:28 | when the first separator in `a + sep + b` follows `a`, splitting peels `a` off |
| Strings.NoEarlierOccurrence | utils.py:28 | a piece without the separator and not ending in a newline has no separator occurrence starting inside it |
| Strings.NatToString | game_analysis.py:41 | non-empty decimal digits, with a leading zero only for 0 |
| Strings.ParseNatToString | game_analysis.py:41 | reading the digits back gives the number |
| Strings.NatToStringInjective | game_analysis.py:41-43 | distinct numbers render differently |
| Utils.SplitGames | utils.py:28 | `strip` then `split` on the separator: a non-empty list, no game containing the separator, that joins back to the stripped text |
| Utils.FetchGames | utils.py:25-28 | a status other than 200 fails with that code and no list; otherwise a non-empty list, no game containing the separator, that joins back to the stripped body |
| Utils.FetchLichessGames | utils.py:25-33 | the result of `FetchGames`; after a success a given file holds the saved games, and after a failure it is untouched |
| Utils.TextFile.OpenForWriting | utils.py:43 | opening for writing empties the file |
| Utils.TextFile.Write | utils.py:45-46 | a write appends its text |
| Utils.SaveGamesToFile | utils.py:43-46 | the file is overwritten with every game followed by the separator, in order |
| Utils.SavedText | utils.py:43-46 | the text each game followed by the separator makes: empty for no games, otherwise the games joined by the separator plus one trailing separator |
| Utils.LoadGamesFromFile | utils.py:58-61 | a non-empty list, no game containing the separator, that joins back to the stripped contents |
| Utils.SplitNoSeparator | utils.py:28 | a text without the separator splits into itself alone |
| Utils.SplitOfJoin | utils.py:28 | splitting undoes joining when no game contains the separator and no game but the last ends with a newline |
| Utils.SaveLoadRoundTrip | utils.py:43-61 | loading what was saved returns the same list, for any such list that joins to a stripped text |
| Utils.FetchSaveLoadRoundTrip | utils.py:28-60 | for every list a successful fetch returns, loading after saving gives it back |
| Utils.LoadAfterSave | utils.py:58-60 | the same round trip through a file object |
| Utils.SaveEmptyLoad | utils.py:44-60 | saving no games and loading gives one empty game, not none |
| Utils.TrailingNewlineBreaksRoundTrip | utils.py:44-60 | a game ending in a newline loses it to the next game across a save and load |
| App.Rem | frontend/src/App.js:27 | JavaScript `%`: `NaN` iff the operand is `NaN` or the length is 0; otherwise a remainder with the sign of the dividend, smaller than the length in magnitude, differing from the dividend by a multiple of the length |
| App.NextIndex | frontend/src/App.js:27 | an index in range stays in range; with no entries it becomes `NaN` |
| App.PreviousIndex | frontend/src/App.js:31 | an index in range stays in range, since `i - 1 + n` is never negative; with no entries it becomes `NaN` |
| App.NextInRange | frontend/src/App.js:27 | one step forward is `i + 1`, or 0 from the last index |
| App.PreviousInRange | frontend/src/App.js:31 | one step back is `i - 1`, or the last index from 0 |
| App.PreviousUndoesNext | frontend/src/App.js:27-31 | stepping back after stepping forward returns to the same index |
| App.NextUndoesPrevious | frontend/src/App.js:27-31 | stepping forward after stepping back returns to the same index |
| App.WrapAround | frontend/src/App.js:27-31 | next from the last index is 0 and previous from 0 is the last index |
| App.NextTimesShifts | frontend/src/App.js:27 | up to `n` forward steps move the index that many places, wrapping at most once |
| App.FullCycle | frontend/src/App.js:27 | `n` forward steps return to the starting board |
| App.NaNIsSticky | frontend/src/App.js:27-31 | with no entries either handler yields `NaN`, and `NaN` stays `NaN` under both |
| App.Kept | frontend/src/App.js:15-21 | a line contributes at most one entry: its parse, exactly when that parse succeeds with a truthy value |
| App.KeepEntries | frontend/src/App.js:14-21 | at most one entry per line, and every kept entry is truthy |
| App.KeepEntriesAppend | frontend/src/App.js:15-21 | filtering keeps line order: the entries of concatenated lines are the concatenated entries |
| App.KeepEntriesMembership | frontend/src/App.js:14-21 | a value is kept iff some line parses to it and it is truthy |
| App.OrientationOf | frontend/src/App.js:35-36 | `white` or `black`, and `white` only for a text containing a space |
| App.Property | frontend/src/App.js:34 | `obj?.key`: the field when the value is an object with that key, `undefined` otherwise |
| App.NoSpaceSplitsWhole | frontend/src/App.js:35 | a field without spaces is the first piece of the split |
| App.OrientationFollowsActiveColor | frontend/src/App.js:35-36 | for a FEN-shaped text, white iff the active-colour field is `w`, black otherwise |
| App.NoActiveFieldIsBlack | frontend/src/App.js:35-36 | a text without a second field gives black |
| App.EmptyFenIsBlack | frontend/src/App.js:34-36 | the empty fallback FEN gives black |
| App.Viewer.constructor | frontend/src/App.js:6-7 | no entries and index 0 |
| App.Viewer.LoadData | frontend/src/App.js:14-22 | the entries become the kept parses of the lines of the data; the index is unchanged |
| App.Viewer.NextBoard | frontend/src/App.js:26-28 | the index becomes `NextIndex` of the old one; the entries are unchanged |
| App.Viewer.PreviousBoard | frontend/src/App.js:30-32 | the index becomes `PreviousIndex` of the old one; the entries are unchanged |
| App.Viewer.CurrentEntry | frontend/src/App.js:34 | `fenData[currentIndex]` when the index is in range, `undefined` otherwise (including `NaN`) |
| App.Viewer.CurrentFen | frontend/src/App.js:34 | the entry's `FEN` property when that is truthy, `''` otherwise |
| App.Viewer.Orientation | frontend/src/App.js:34-36 | `OrientationOf` the current FEN when it is a string (so `white` or `black`); none exactly when it is not a string |
| App.ViewerOrientationFollowsFen | frontend/src/App.js:34-36 | when the current entry's `FEN` is a FEN-shaped text the board is shown from White's side iff its active-colour field is `w` |
| App.EmptyViewerIsBlack | frontend/src/App.js:34-36 | with no entries the FEN is `''` and the board is shown from Black's side |

## Left out

- The HTTP request itself (`requests.get`, the URL, the `max` and `pgnInJson` parameters) is not modelled; the model starts from the reply's status and decoded body.
- Opening files by name is not modelled. A `TextFile` object stands for the named file, and `save_to_file=None` is a null file. An empty filename, which is also falsy, is treated like `None`.
- python-chess: move legality, the board representation, FEN generation and PGN parsing are behind the `ChessLib` record and the `Game` datatype.
- Reading games from a file with `chess.pgn.read_game` until it returns `None`: the games are given as a list.
- Console printing, the ANSI colour codes and the `=` separator line are not modelled; the scan and the analysis return what they would print.
- The engine process: `popen_uci`, the `Threads` configuration and `quit` are not modelled, and `analyse` is a function parameter. The code has no `try`/`finally` around `quit`, and nothing here claims the engine is released.
- `analyze_game_between_moves_with_stockfish` reading its game from `pgn_path` is not modelled; the game is a parameter.
- Python text-mode file I/O is not modelled. Writing encodes with the locale encoding and can raise `UnicodeEncodeError`. Reading translates `'\r'` and `"\r\n"` to `'\n'`. A `TextFile` holds exactly the characters written. So `Utils.FetchSaveLoadRoundTrip` and `Utils.LoadAfterSave` hold for the file contents as written, and say nothing about a body containing `'\r'` or an unencodable character.
- Floating point: `analysis_time` is a `real` passed through unchanged.
- GameAnalysis.CentipawnText: modelled as exact decimal rendering of `cp / 100` with two digits after the point. This assumes `f"{score / 100:.2f}"` prints that decimal exactly. Float division and round-half-even formatting could in principle differ from it.
- JSON numbers are modelled as reals, and the parse of each line is an abstract partial function.
- React is not modelled: rendering, `useEffect`, the `fetch('/fen.txt')` call, the `engineEval` display and the `FEN {currentIndex + 1}` label.
- The index is modelled only as an integer or `NaN`. It never holds a fraction or infinity, because it only ever results from the handlers.
- `run.py` (a file-exists check and two calls) is not part of this model.
