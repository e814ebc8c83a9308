/**
 * utils.py: fetching a user's games from the archive (once the HTTP reply
 * is in hand), saving the list of games to a file and loading it back.
 */
module Utils {
  import opened Wrappers
  import opened Strings

  /** Three newlines: two blank lines between games. */
  const Separator: string := "\n\n\n"

  /** The reply to the archive request: its status code and decoded body. */
  datatype HttpReply = HttpReply(status: int, text: string)

  /** The exception raised for a status other than 200, carrying the code. */
  datatype FetchError = FetchFailed(status: int)

  /** `text.strip().split("\n\n\n")`, shared by fetching and loading. */
  function SplitGames(text: string): (games: seq<string>)
    ensures |games| >= 1
    ensures forall i :: 0 <= i < |games| ==> !Contains(games[i], Separator)
    ensures Join(games, Separator) == Strip(text)
  {
    Split(Strip(text), Separator)
  }

  /**
   * `fetch_lichess_games` after `requests.get` returns: a status other than
   * 200 fails with that status and produces no list; otherwise the list is
   * never empty, no game in it contains the separator, and joining it with
   * the separator gives the stripped body back.
   */
  function FetchGames(reply: HttpReply): (r: Result<seq<string>, FetchError>)
    ensures r.Failure? <==> reply.status != 200
    ensures r.Failure? ==> r.error == FetchFailed(reply.status)
    ensures r.Success? ==> |r.value| >= 1
    ensures r.Success? ==> forall i :: 0 <= i < |r.value| ==> !Contains(r.value[i], Separator)
    ensures r.Success? ==> Join(r.value, Separator) == Strip(reply.text)
  {
    if reply.status != 200 then Failure(FetchFailed(reply.status)) else Success(SplitGames(reply.text))
  }

  /** A text file, seen as its whole contents. */
  class TextFile {
    var content: string

    constructor (initial: string)
      ensures content == initial
    {
      content := initial;
    }

    /** `open(filename, 'w')`: the file is truncated. */
    method OpenForWriting()
      modifies this
      ensures content == ""
    {
      content := "";
    }

    /** `file.write(s)`. */
    method Write(s: string)
      modifies this
      ensures content == old(content) + s
    {
      content := content + s;
    }
  }

  /**
   * The file contents after saving `games`: each game followed by the
   * separator, in order. For a non-empty list that is the games joined by
   * the separator, plus one more separator; an empty list saves nothing.
   */
  function SavedText(games: seq<string>): (t: string)
    ensures |games| == 0 ==> t == ""
    ensures |games| > 0 ==> t == Join(games, Separator) + Separator
  {
    if |games| == 0 then ""
    else
      var init := games[..|games| - 1];
      if |init| > 0 then
        assert games == init + [games[|games| - 1]];
        JoinSnoc(init, games[|games| - 1], Separator);
        SavedText(init) + games[|games| - 1] + Separator
      else
        SavedText(init) + games[|games| - 1] + Separator
  }

  /** `save_games_to_file`: overwrites `file` with every game followed by the separator. */
  method SaveGamesToFile(games: seq<string>, file: TextFile)
    modifies file
    ensures file.content == SavedText(games)
  {
    file.OpenForWriting();
    for i := 0 to |games|
      invariant file.content == SavedText(games[..i])
    {
      assert games[..i + 1][..i] == games[..i];
      file.Write(games[i]);
      file.Write(Separator);
    }
    assert games[..|games|] == games;
  }

  /**
   * `load_games_from_file`: never empty, no game contains the separator,
   * and joining the games with the separator gives the stripped contents.
   */
  function LoadGamesFromFile(file: TextFile): (games: seq<string>)
    reads file
    ensures |games| >= 1
    ensures forall i :: 0 <= i < |games| ==> !Contains(games[i], Separator)
    ensures Join(games, Separator) == Strip(file.content)
  {
    SplitGames(file.content)
  }

  /**
   * `fetch_lichess_games` with its optional save: the result of
   * `FetchGames`, and when a file is given and the fetch succeeded, that
   * file holds the saved games; otherwise the file is untouched.
   */
  method FetchLichessGames(reply: HttpReply, saveTo: TextFile?) returns (r: Result<seq<string>, FetchError>)
    modifies saveTo
    ensures r == FetchGames(reply)
    ensures saveTo != null && r.Success? ==> saveTo.content == SavedText(r.value)
    ensures saveTo != null && r.Failure? ==> saveTo.content == old(saveTo.content)
  {
    if reply.status != 200 {
      return Failure(FetchFailed(reply.status));
    }
    var games := SplitGames(reply.text);
    if saveTo != null {
      SaveGamesToFile(games, saveTo);
    }
    return Success(games);
  }

  // ---------------------------------------------------------------------------
  // Round trips
  // ---------------------------------------------------------------------------

  lemma SeparatorIsNewlines()
    ensures |Separator| == 3 && AllChar(Separator, '\n') && AllSpace(Separator)
  {
  }

  /** Splitting a text that does not contain the separator leaves it whole. */
  lemma SplitNoSeparator(x: string)
    requires !Contains(x, Separator)
    ensures Split(x, Separator) == [x]
  {
    assert FindFrom(x, Separator, 0).None?;
  }

  /**
   * Splitting undoes joining when no game contains the separator and no
   * game but the last ends with a newline (a trailing newline would merge
   * into the separator that follows it).
   */
  lemma {:induction false} SplitOfJoin(xs: seq<string>)
    requires |xs| >= 1
    requires forall i :: 0 <= i < |xs| ==> !Contains(xs[i], Separator)
    requires forall i :: 0 <= i < |xs| - 1 ==> |xs[i]| == 0 || xs[i][|xs[i]| - 1] != '\n'
    ensures Split(Join(xs, Separator), Separator) == xs
  {
    if |xs| == 1 {
      SplitNoSeparator(xs[0]);
    } else {
      var rest := xs[1..];
      SeparatorIsNewlines();
      NoEarlierOccurrence(xs[0], Separator, '\n', Join(rest, Separator));
      SplitCons(xs[0], Separator, Join(rest, Separator));
      SplitOfJoin(rest);
      assert xs == [xs[0]] + rest;
    }
  }

  /**
   * Loading what was saved gives the same list, for any list that joins to
   * a stripped text and satisfies the conditions of `SplitOfJoin`.
   */
  lemma SaveLoadRoundTrip(games: seq<string>)
    requires |games| >= 1
    requires forall i :: 0 <= i < |games| ==> !Contains(games[i], Separator)
    requires forall i :: 0 <= i < |games| - 1 ==> |games[i]| == 0 || games[i][|games[i]| - 1] != '\n'
    requires IsStripped(Join(games, Separator))
    ensures SplitGames(SavedText(games)) == games
  {
    SeparatorIsNewlines();
    StripAppendSpace(Join(games, Separator), Separator);
    SplitOfJoin(games);
  }

  /** For every list a successful fetch produces, loading after saving gives it back. */
  lemma FetchSaveLoadRoundTrip(reply: HttpReply)
    requires reply.status == 200
    ensures SplitGames(SavedText(FetchGames(reply).value)) == FetchGames(reply).value
  {
    var games := FetchGames(reply).value;
    var t := Strip(reply.text);
    SeparatorIsNewlines();
    StripAppendSpace(t, Separator);
  }

  /** The same round trip, through a file object. */
  lemma LoadAfterSave(reply: HttpReply, file: TextFile)
    requires reply.status == 200
    requires file.content == SavedText(FetchGames(reply).value)
    ensures LoadGamesFromFile(file) == FetchGames(reply).value
  {
    FetchSaveLoadRoundTrip(reply);
  }

  /** Saving an empty list and loading it gives one empty game, not none. */
  lemma SaveEmptyLoad()
    ensures SplitGames(SavedText([])) == [""]
  {
    assert Strip("") == "";
  }

  /**
   * Without the newline condition the round trip fails: a game ending in a
   * newline moves that newline to the front of the next game.
   */
  lemma TrailingNewlineBreaksRoundTrip()
    ensures SplitGames(SavedText(["a\n", "b"])) == ["a", "\nb"]
  {
    var joined := "a\n" + Separator + "b";
    SavedTrailingNewline();
    assert joined == "a" + Separator + "\nb";
    SplitCons("a", Separator, "\nb");
    assert !Contains("\nb", Separator);
    SplitNoSeparator("\nb");
  }

  /** Saving `["a\n", "b"]` and stripping keeps the text between the games. */
  lemma SavedTrailingNewline()
    ensures Strip(SavedText(["a\n", "b"])) == "a\n" + Separator + "b"
  {
    var joined := "a\n" + Separator + "b";
    assert Join(["a\n", "b"], Separator) == joined;
    SeparatorIsNewlines();
    StripAppendSpace(joined, Separator);
  }
}
