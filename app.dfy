/**
 * frontend/src/App.js: the board viewer's state (the loaded entries and
 * the current index), the handlers that step the index forwards and
 * backwards, the filtering of parsed lines, and the board orientation
 * derived from the current FEN. Rendering is not modelled.
 */
module App {
  import opened Wrappers
  import opened Strings

  // ---------------------------------------------------------------------------
  // JavaScript values
  // ---------------------------------------------------------------------------

  /** A JavaScript number as the index can hold it: an integer or `NaN`. */
  datatype JsNumber = Num(value: int) | NaN

  /** The values `JSON.parse` can return, plus `undefined`. */
  datatype JsValue =
    | Undefined
    | Null
    | Bool(b: bool)
    | Number(x: real)
    | Str(s: string)
    | Arr(items: seq<JsValue>)
    | Obj(fields: map<string, JsValue>)

  /** JavaScript truthiness (`JSON.parse` never yields `NaN`). */
  predicate Truthy(v: JsValue)
  {
    match v
    case Undefined => false
    case Null => false
    case Bool(b) => b
    case Number(x) => x != 0.0
    case Str(s) => s != ""
    case Arr(_) => true
    case Obj(_) => true
  }

  /** `x + k`. */
  function Plus(x: JsNumber, k: int): JsNumber
  {
    match x
    case Num(v) => Num(v + k)
    case NaN => NaN
  }

  /**
   * `x % n` for an array length `n`: `NaN` when `x` is `NaN` or `n` is 0,
   * otherwise the remainder with the sign of the dividend (JavaScript
   * truncates, unlike Dafny's Euclidean `%`).
   */
  function Rem(x: JsNumber, n: nat): (r: JsNumber)
    ensures x.NaN? || n == 0 <==> r == NaN
    ensures x.Num? && n > 0 && x.value >= 0 ==> 0 <= r.value < n
    ensures x.Num? && n > 0 && x.value < 0 ==> -(n as int) < r.value <= 0
    ensures x.Num? && n > 0 ==> exists q :: x.value == q * n + r.value
  {
    match x
    case NaN => NaN
    case Num(v) =>
      if n == 0 then NaN
      else if v >= 0 then
        assert v == (v / n) * n + v % n;
        Num(v % n)
      else
        var q := (-v) / n;
        assert -v == q * n + (-v) % n;
        assert v == (-q) * n + -((-v) % n);
        Num(-((-v) % n))
  }

  /** `0 <= i < n`. */
  predicate InRange(i: JsNumber, n: nat)
  {
    i.Num? && 0 <= i.value < n
  }

  // ---------------------------------------------------------------------------
  // Stepping through the boards
  // ---------------------------------------------------------------------------

  /** `(prevIndex + 1) % fenData.length`. */
  function NextIndex(i: JsNumber, n: nat): (r: JsNumber)
    ensures InRange(i, n) ==> InRange(r, n)
    ensures n == 0 ==> r == NaN
  {
    Rem(Plus(i, 1), n)
  }

  /**
   * `(prevIndex - 1 + fenData.length) % fenData.length`; for an index in
   * range the operand is never negative, so the result stays in range.
   */
  function PreviousIndex(i: JsNumber, n: nat): (r: JsNumber)
    ensures InRange(i, n) ==> InRange(r, n)
    ensures n == 0 ==> r == NaN
  {
    Rem(Plus(Plus(i, -1), n), n)
  }

  lemma ModSmall(a: int, n: int)
    requires 0 <= a < n
    ensures a % n == a
  {
  }

  lemma ModWrap(a: int, n: int)
    requires 0 < n <= a < 2 * n
    ensures a % n == a - n
  {
  }

  /** In range, one step forward is `i + 1`, or 0 from the last index. */
  lemma NextInRange(v: int, n: nat)
    requires 0 <= v < n
    ensures NextIndex(Num(v), n) == if v + 1 < n then Num(v + 1) else Num(0)
  {
    if v + 1 < n {
      ModSmall(v + 1, n);
    } else {
      ModWrap(v + 1, n);
    }
  }

  /** In range, one step back is `i - 1`, or the last index from 0. */
  lemma PreviousInRange(v: int, n: nat)
    requires 0 <= v < n
    ensures PreviousIndex(Num(v), n) == if v > 0 then Num(v - 1) else Num(n - 1)
  {
    if v > 0 {
      ModWrap(v - 1 + n, n);
    } else {
      ModSmall(n - 1, n);
    }
  }

  /** Stepping back undoes stepping forward. */
  lemma PreviousUndoesNext(i: JsNumber, n: nat)
    requires InRange(i, n)
    ensures PreviousIndex(NextIndex(i, n), n) == i
  {
    NextInRange(i.value, n);
    PreviousInRange(NextIndex(i, n).value, n);
  }

  /** Stepping forward undoes stepping back. */
  lemma NextUndoesPrevious(i: JsNumber, n: nat)
    requires InRange(i, n)
    ensures NextIndex(PreviousIndex(i, n), n) == i
  {
    PreviousInRange(i.value, n);
    NextInRange(PreviousIndex(i, n).value, n);
  }

  /** The last board is followed by the first, and the first preceded by the last. */
  lemma WrapAround(n: nat)
    requires n > 0
    ensures NextIndex(Num(n - 1), n) == Num(0)
    ensures PreviousIndex(Num(0), n) == Num(n - 1)
  {
    NextInRange(n - 1, n);
    PreviousInRange(0, n);
  }

  /** The index after `k` presses of the forward button. */
  function NextTimes(i: JsNumber, n: nat, k: nat): JsNumber
  {
    if k == 0 then i else NextIndex(NextTimes(i, n, k - 1), n)
  }

  /** Up to `n` presses move the index `k` places forward, wrapping once. */
  lemma {:induction false} NextTimesShifts(i: JsNumber, n: nat, k: nat)
    requires InRange(i, n) && k <= n
    ensures NextTimes(i, n, k) == if i.value + k < n then Num(i.value + k) else Num(i.value + k - n)
  {
    if k > 0 {
      NextTimesShifts(i, n, k - 1);
      var v := i.value;
      if v + k - 1 < n {
        NextInRange(v + k - 1, n);
      } else {
        NextInRange(v + k - 1 - n, n);
      }
    }
  }

  /** `n` presses of the forward button come back to the board one started from. */
  lemma FullCycle(i: JsNumber, n: nat)
    requires InRange(i, n)
    ensures NextTimes(i, n, n) == i
  {
    NextTimesShifts(i, n, n);
  }

  // ---------------------------------------------------------------------------
  // Loading the entries
  // ---------------------------------------------------------------------------

  /** What one line contributes: its parse, if that succeeds with a truthy value. */
  function Kept(o: Option<JsValue>): (r: seq<JsValue>)
    ensures |r| <= 1
    ensures forall j :: 0 <= j < |r| ==> o == Some(r[j]) && Truthy(r[j])
    ensures o.Some? && Truthy(o.value) ==> r == [o.value]
  {
    match o
    case Some(v) => if Truthy(v) then [v] else []
    case None => []
  }

  /**
   * `lines.map(line => { try { return JSON.parse(line) } catch (e) { return null } })
   * .filter(item => item)`, with `JSON.parse` an abstract partial function
   * (`None` when it throws).
   */
  function KeepEntries(lines: seq<string>, parse: string -> Option<JsValue>): (r: seq<JsValue>)
    ensures |r| <= |lines|
    ensures forall j :: 0 <= j < |r| ==> Truthy(r[j])
  {
    if |lines| == 0 then [] else Kept(parse(lines[0])) + KeepEntries(lines[1..], parse)
  }

  /** Filtering keeps the original order: the entries of a concatenation are concatenated. */
  lemma {:induction false} KeepEntriesAppend(a: seq<string>, b: seq<string>, parse: string -> Option<JsValue>)
    ensures KeepEntries(a + b, parse) == KeepEntries(a, parse) + KeepEntries(b, parse)
  {
    if |a| > 0 {
      assert (a + b)[1..] == a[1..] + b;
      KeepEntriesAppend(a[1..], b, parse);
    } else {
      assert a + b == b;
    }
  }

  /** A value is kept exactly when some line parses to it and it is truthy. */
  lemma {:induction false} KeepEntriesMembership(lines: seq<string>, parse: string -> Option<JsValue>, v: JsValue)
    ensures v in KeepEntries(lines, parse) <==>
      exists i :: 0 <= i < |lines| && parse(lines[i]) == Some(v) && Truthy(v)
  {
    if |lines| > 0 {
      KeepEntriesMembership(lines[1..], parse, v);
      if v in KeepEntries(lines[1..], parse) {
        var i :| 0 <= i < |lines[1..]| && parse(lines[1..][i]) == Some(v) && Truthy(v);
        assert lines[i + 1] == lines[1..][i];
      }
      if exists i :: 0 <= i < |lines| && parse(lines[i]) == Some(v) && Truthy(v) {
        var i :| 0 <= i < |lines| && parse(lines[i]) == Some(v) && Truthy(v);
        if i > 0 {
          assert lines[1..][i - 1] == lines[i];
        }
      }
    }
  }

  // ---------------------------------------------------------------------------
  // Orientation
  // ---------------------------------------------------------------------------

  /**
   * `activeColor === 'w' ? 'white' : 'black'` with
   * `activeColor = fen.split(' ')[1]` (`undefined` when there is no second field).
   */
  function OrientationOf(fen: string): (o: string)
    ensures o == "white" || o == "black"
    ensures o == "white" ==> Contains(fen, " ")
  {
    var fields := Split(fen, " ");
    if |fields| > 1 && fields[1] == "w" then
      assert fen == fields[0] + " " + Join(fields[1..], " ");
      assert OccursAt(fen, " ", |fields[0]|);
      "white"
    else "black"
  }

  lemma NoSpaceSplitsWhole(a: string, rest: string)
    requires forall k :: 0 <= k < |a| ==> a[k] != ' '
    ensures Split(a + " " + rest, " ") == [a] + Split(rest, " ")
  {
    forall j | 0 <= j < |a| ensures !OccursAt(a, " ", j) {
      assert a[j..j + 1][0] == a[j];
    }
    assert !Contains(a, " ");
    NoEarlierOccurrence(a, " ", ' ', rest);
    SplitCons(a, " ", rest);
  }

  /**
   * For a FEN-shaped text `placement active rest`, the orientation is
   * `'white'` exactly when the active-colour field is `w`.
   */
  lemma OrientationFollowsActiveColor(placement: string, active: string, rest: string)
    requires forall k :: 0 <= k < |placement| ==> placement[k] != ' '
    requires forall k :: 0 <= k < |active| ==> active[k] != ' '
    ensures OrientationOf(placement + " " + active + " " + rest) == if active == "w" then "white" else "black"
  {
    NoSpaceSplitsWhole(active, rest);
    assert placement + " " + active + " " + rest == placement + " " + (active + " " + rest);
    NoSpaceSplitsWhole(placement, active + " " + rest);
  }

  /** The empty FEN the viewer falls back to gives the black orientation. */
  lemma EmptyFenIsBlack()
    ensures OrientationOf("") == "black"
  {
    assert Split("", " ") == [""];
  }

  /** A text without a space has no active-colour field and gives the black orientation. */
  lemma NoActiveFieldIsBlack(fen: string)
    requires !Contains(fen, " ")
    ensures OrientationOf(fen) == "black"
  {
    assert FindFrom(fen, " ", 0).None?;
  }

  /** `obj?.key`: a property of an object, `undefined` for anything else. */
  function Property(v: JsValue, key: string): (p: JsValue)
    ensures v.Obj? && key in v.fields ==> p == v.fields[key]
    ensures !(v.Obj? && key in v.fields) ==> p == Undefined
  {
    match v
    case Obj(fields) => if key in fields then fields[key] else Undefined
    case _ => Undefined
  }

  // ---------------------------------------------------------------------------
  // The component's state
  // ---------------------------------------------------------------------------

  /** The `fenData` and `currentIndex` state of the `App` component. */
  class Viewer {
    var fenData: seq<JsValue>
    var currentIndex: JsNumber

    /** `useState([])` and `useState(0)`. */
    constructor ()
      ensures fenData == [] && currentIndex == Num(0)
    {
      fenData := [];
      currentIndex := Num(0);
    }

    /** The effect that runs once the text of `/fen.txt` has arrived. */
    method LoadData(data: string, parse: string -> Option<JsValue>)
      modifies this
      ensures fenData == KeepEntries(Split(data, "\n"), parse)
      ensures currentIndex == old(currentIndex)
    {
      fenData := KeepEntries(Split(data, "\n"), parse);
    }

    /** `nextBoard`. */
    method NextBoard()
      modifies this
      ensures currentIndex == NextIndex(old(currentIndex), |fenData|)
      ensures fenData == old(fenData)
    {
      currentIndex := Rem(Plus(currentIndex, 1), |fenData|);
    }

    /** `previousBoard`. */
    method PreviousBoard()
      modifies this
      ensures currentIndex == PreviousIndex(old(currentIndex), |fenData|)
      ensures fenData == old(fenData)
    {
      currentIndex := Rem(Plus(Plus(currentIndex, -1), |fenData|), |fenData|);
    }

    /** `fenData[currentIndex]`, `undefined` when the index is out of range or `NaN`. */
    function CurrentEntry(): (e: JsValue)
      reads this
      ensures InRange(currentIndex, |fenData|) ==> e == fenData[currentIndex.value]
      ensures !InRange(currentIndex, |fenData|) ==> e == Undefined
      ensures e != Undefined ==> e in fenData
    {
      if InRange(currentIndex, |fenData|) then fenData[currentIndex.value] else Undefined
    }

    /** `fenData[currentIndex]?.FEN || ''`. */
    function CurrentFen(): (f: JsValue)
      reads this
      ensures Truthy(f) || f == Str("")
      ensures f != Str("") ==> f == Property(CurrentEntry(), "FEN")
      ensures Truthy(Property(CurrentEntry(), "FEN")) ==> f == Property(CurrentEntry(), "FEN")
    {
      var f := Property(CurrentEntry(), "FEN");
      if Truthy(f) then f else Str("")
    }

    /**
     * The orientation passed to the board; `None` when `currentFen` is not a
     * string, where `currentFen.split` throws during rendering.
     */
    function Orientation(): (r: Option<string>)
      reads this
      ensures r.Some? ==> r.value == "white" || r.value == "black"
      ensures r.None? <==> !CurrentFen().Str?
      ensures CurrentFen().Str? ==> r == Some(OrientationOf(CurrentFen().s))
    {
      match CurrentFen()
      case Str(s) => Some(OrientationOf(s))
      case _ => None
    }
  }

  /**
   * Before any entry is loaded (or when none survives the filter) the FEN is
   * empty and the board is shown from Black's side.
   */
  lemma EmptyViewerIsBlack(v: Viewer)
    requires v.fenData == []
    ensures v.CurrentFen() == Str("") && v.Orientation() == Some("black")
  {
    EmptyFenIsBlack();
  }

  /**
   * When the current entry's `FEN` property is a FEN-shaped text, the board
   * is shown from White's side exactly when its active-colour field is `w`.
   */
  lemma ViewerOrientationFollowsFen(v: Viewer, placement: string, active: string, rest: string)
    requires InRange(v.currentIndex, |v.fenData|)
    requires Property(v.fenData[v.currentIndex.value], "FEN") == Str(placement + " " + active + " " + rest)
    requires forall k :: 0 <= k < |placement| ==> placement[k] != ' '
    requires forall k :: 0 <= k < |active| ==> active[k] != ' '
    ensures v.Orientation() == Some(if active == "w" then "white" else "black")
  {
    var fen := placement + " " + active + " " + rest;
    assert fen[|placement|] == ' ';
    OrientationFollowsActiveColor(placement, active, rest);
  }

  /**
   * With no entries, either button turns the index into `NaN`, and it stays
   * `NaN` whatever is pressed or loaded afterwards.
   */
  lemma NaNIsSticky(n: nat)
    ensures NextIndex(Num(0), 0) == NaN && PreviousIndex(Num(0), 0) == NaN
    ensures NextIndex(NaN, n) == NaN && PreviousIndex(NaN, n) == NaN
  {
  }
}
