/**
 * The string operations the program relies on, with the semantics of the
 * languages it is written in: `str.split(sep)` / `String.prototype.split(sep)`
 * for a non-empty separator (leftmost, non-overlapping occurrences),
 * `sep.join(xs)`, Python's `str.strip()` with no argument, and `str(n)` for a
 * natural number.
 */
module Strings {
  import opened Wrappers

  // ---------------------------------------------------------------------------
  // Occurrences of a separator
  // ---------------------------------------------------------------------------

  /** `sep` occurs in `s` starting at index `i`. */
  predicate OccursAt(s: string, sep: string, i: int)
  {
    0 <= i && i + |sep| <= |s| && s[i..i + |sep|] == sep
  }

  /** `sep in s`, in Python's terms. */
  predicate Contains(s: string, sep: string)
  {
    exists i :: 0 <= i <= |s| && OccursAt(s, sep, i)
  }

  /** The first occurrence of `sep` in `s` at or after index `k`. */
  function FindFrom(s: string, sep: string, k: nat): (r: Option<nat>)
    requires |sep| > 0
    decreases |s| - k
    ensures r.Some? ==> k <= r.value && OccursAt(s, sep, r.value)
    ensures r.Some? ==> forall j :: k <= j < r.value ==> !OccursAt(s, sep, j)
    ensures r.None? ==> forall j :: k <= j ==> !OccursAt(s, sep, j)
  {
    if k + |sep| > |s| then None
    else if OccursAt(s, sep, k) then Some(k)
    else FindFrom(s, sep, k + 1)
  }

  /** An occurrence inside a prefix of `s` is an occurrence in `s`. */
  lemma OccursInPrefix(s: string, sep: string, i: nat, j: int)
    requires i <= |s|
    requires OccursAt(s[..i], sep, j)
    ensures OccursAt(s, sep, j) && j + |sep| <= i
  {
    assert s[..i][j..j + |sep|] == s[j..j + |sep|];
  }

  // ---------------------------------------------------------------------------
  // split and join
  // ---------------------------------------------------------------------------

  /** `sep.join(xs)`. */
  function Join(xs: seq<string>, sep: string): string
  {
    if |xs| == 0 then ""
    else if |xs| == 1 then xs[0]
    else xs[0] + sep + Join(xs[1..], sep)
  }

  /**
   * `s.split(sep)` for a non-empty separator: the text between successive
   * leftmost non-overlapping occurrences of `sep`. There is always at least
   * one piece (`"".split(sep) == [""]`), no piece contains `sep`, and
   * joining the pieces with `sep` gives `s` back.
   */
  function Split(s: string, sep: string): (r: seq<string>)
    requires |sep| > 0
    decreases |s|
    ensures |r| >= 1
    ensures forall i :: 0 <= i < |r| ==> !Contains(r[i], sep)
    ensures Join(r, sep) == s
  {
    match FindFrom(s, sep, 0)
    case None => [s]
    case Some(i) =>
      var head, rest := s[..i], Split(s[i + |sep|..], sep);
      assert !Contains(head, sep) by {
        forall j | OccursAt(head, sep, j) ensures false {
          OccursInPrefix(s, sep, i, j);
        }
      }
      assert s == head + sep + s[i + |sep|..] by {
        assert s[i..i + |sep|] == sep;
        assert s == s[..i] + s[i..i + |sep|] + s[i + |sep|..];
      }
      assert ([head] + rest)[1..] == rest;
      [head] + rest
  }

  /**
   * When the first occurrence of `sep` in `a + sep + b` is the one between
   * `a` and `b`, splitting peels `a` off the front.
   */
  lemma SplitCons(a: string, sep: string, b: string)
    requires |sep| > 0
    requires forall j :: 0 <= j < |a| ==> !OccursAt(a + sep + b, sep, j)
    ensures Split(a + sep + b, sep) == [a] + Split(b, sep)
  {
    var s := a + sep + b;
    assert s[|a|..|a| + |sep|] == sep;
    assert OccursAt(s, sep, |a|);
    var f := FindFrom(s, sep, 0);
    assert f == Some(|a|);
    assert s[..|a|] == a;
    assert s[|a| + |sep|..] == b;
  }

  /** A separator made of one repeated character. */
  predicate AllChar(sep: string, c: char)
  {
    forall k :: 0 <= k < |sep| ==> sep[k] == c
  }

  /**
   * An occurrence of a one-character separator that starts inside `x` but
   * runs past its end forces `x` to end with that character.
   */
  lemma StraddlingOccurrence(x: string, t: string, sep: string, c: char, j: int)
    requires AllChar(sep, c)
    requires OccursAt(x + t, sep, j)
    requires j < |x| < j + |sep|
    ensures x[|x| - 1] == c
  {
    var s := x + t;
    assert s[j..j + |sep|][|x| - 1 - j] == s[|x| - 1];
  }

  /**
   * In `x + sep + t` with `sep` one repeated character `c`, the first
   * occurrence of `sep` is right after `x` when `x` neither contains `sep`
   * nor ends with `c`.
   */
  lemma NoEarlierOccurrence(x: string, sep: string, c: char, t: string)
    requires |sep| > 0 && AllChar(sep, c)
    requires !Contains(x, sep)
    requires |x| == 0 || x[|x| - 1] != c
    ensures forall j :: 0 <= j < |x| ==> !OccursAt(x + sep + t, sep, j)
  {
    forall j | 0 <= j < |x| && OccursAt(x + sep + t, sep, j) ensures false {
      var s := x + sep + t;
      if j + |sep| <= |x| {
        assert s[j..j + |sep|] == x[j..j + |sep|];
        assert OccursAt(x, sep, j);
      } else {
        assert s == x + (sep + t);
        StraddlingOccurrence(x, sep + t, sep, c, j);
      }
    }
  }

  /** Joining a list of one more element adds a separator and that element. */
  lemma {:induction false} JoinSnoc(xs: seq<string>, x: string, sep: string)
    requires |xs| >= 1
    ensures Join(xs + [x], sep) == Join(xs, sep) + sep + x
  {
    if |xs| == 1 {
      assert (xs + [x])[1..] == [x];
    } else {
      assert (xs + [x])[1..] == xs[1..] + [x];
      JoinSnoc(xs[1..], x, sep);
    }
  }

  // ---------------------------------------------------------------------------
  // strip
  // ---------------------------------------------------------------------------

  /** The characters for which Python's `str.isspace()` holds. */
  predicate IsSpace(c: char)
  {
    c == ' ' || c == '\t' || c == '\n' || c == '\r' || c == '\U{0B}' || c == '\U{0C}'
    || ('\U{1C}' <= c <= '\U{1F}') || c == '\U{85}' || c == '\U{A0}' || c == '\U{1680}'
    || ('\U{2000}' <= c <= '\U{200A}') || c == '\U{2028}' || c == '\U{2029}'
    || c == '\U{202F}' || c == '\U{205F}' || c == '\U{3000}'
  }

  predicate AllSpace(s: string)
  {
    forall i :: 0 <= i < |s| ==> IsSpace(s[i])
  }

  /** Neither end of `s` is whitespace: what `strip()` produces. */
  predicate IsStripped(s: string)
  {
    |s| == 0 || (!IsSpace(s[0]) && !IsSpace(s[|s| - 1]))
  }

  /** `s.lstrip()`: the suffix left after dropping leading whitespace. */
  function TrimStart(s: string): (r: string)
    ensures |r| <= |s| && r == s[|s| - |r|..]
    ensures forall i :: 0 <= i < |s| - |r| ==> IsSpace(s[i])
    ensures |r| > 0 ==> !IsSpace(r[0])
  {
    if |s| > 0 && IsSpace(s[0]) then
      var r := TrimStart(s[1..]);
      assert s[|s| - |r|..] == s[1..][|s| - 1 - |r|..];
      r
    else s
  }

  /** `s.rstrip()`: the prefix left after dropping trailing whitespace. */
  function TrimEnd(s: string): (r: string)
    ensures |r| <= |s| && r == s[..|r|]
    ensures forall i :: |r| <= i < |s| ==> IsSpace(s[i])
    ensures |r| > 0 ==> !IsSpace(r[|r| - 1])
  {
    if |s| > 0 && IsSpace(s[|s| - 1]) then
      var r := TrimEnd(s[..|s| - 1]);
      assert r == s[..|r|];
      r
    else s
  }

  /** `r` is the slice of `s` at `a`, with only whitespace before and after it. */
  predicate SpaceAround(s: string, a: int, r: string)
  {
    0 <= a && a + |r| <= |s| && r == s[a..a + |r|]
    && (forall i :: 0 <= i < a ==> IsSpace(s[i]))
    && (forall i :: a + |r| <= i < |s| ==> IsSpace(s[i]))
  }

  /**
   * `s.strip()`: the slice of `s` left after removing the whitespace at
   * both ends.
   */
  function Strip(s: string): (r: string)
    ensures IsStripped(r)
    ensures exists a :: SpaceAround(s, a, r)
  {
    var u := TrimStart(s);
    TrimBothEnds(s, u, TrimEnd(u));
    TrimEnd(u)
  }

  /** A prefix of a suffix, with whitespace around it, is a `SpaceAround` slice. */
  lemma TrimBothEnds(s: string, u: string, r: string)
    requires |u| <= |s| && u == s[|s| - |u|..]
    requires forall i :: 0 <= i < |s| - |u| ==> IsSpace(s[i])
    requires |r| <= |u| && r == u[..|r|]
    requires forall i :: |r| <= i < |u| ==> IsSpace(u[i])
    ensures SpaceAround(s, |s| - |u|, r)
  {
    var a := |s| - |u|;
    assert r == s[a..a + |r|];
    forall i | a + |r| <= i < |s| ensures IsSpace(s[i]) {
      assert s[i] == u[i - a];
    }
  }

  lemma TrimStartStripped(t: string, w: string)
    requires IsStripped(t) && AllSpace(w)
    ensures TrimStart(t + w) == (if |t| == 0 then "" else t + w)
  {
    var r := TrimStart(t + w);
    if |t| == 0 {
      assert t + w == w;
    }
  }

  lemma {:induction false} TrimEndSpace(t: string, w: string)
    requires IsStripped(t) && AllSpace(w)
    ensures TrimEnd(t + w) == t
  {
    if |w| == 0 {
      assert t + w == t;
    } else {
      var s := t + w;
      assert s[|s| - 1] == w[|w| - 1];
      assert s[..|s| - 1] == t + w[..|w| - 1];
      TrimEndSpace(t, w[..|w| - 1]);
    }
  }

  /** Stripping a stripped text followed by whitespace gives the text back. */
  lemma StripAppendSpace(t: string, w: string)
    requires IsStripped(t) && AllSpace(w)
    ensures Strip(t + w) == t
  {
    TrimStartStripped(t, w);
    if |t| == 0 {
      assert TrimEnd("") == "";
    } else {
      TrimEndSpace(t, w);
    }
  }

  /** `strip()` is idempotent. */
  lemma StripIdempotent(s: string)
    ensures Strip(Strip(s)) == Strip(s)
  {
    StripAppendSpace(Strip(s), "");
    assert Strip(s) + "" == Strip(s);
  }

  // ---------------------------------------------------------------------------
  // Decimal rendering of natural numbers
  // ---------------------------------------------------------------------------

  predicate IsDigit(c: char)
  {
    '0' <= c <= '9'
  }

  predicate AllDigits(s: string)
  {
    forall i :: 0 <= i < |s| ==> IsDigit(s[i])
  }

  function DigitChar(d: nat): (c: char)
    requires d < 10
  {
    (48 + d) as char
  }

  function DigitValue(c: char): nat
    requires IsDigit(c)
  {
    c as int - 48
  }

  lemma DigitRoundTrip(d: nat)
    requires d < 10
    ensures IsDigit(DigitChar(d)) && DigitValue(DigitChar(d)) == d
  {
  }

  /** `str(n)` for `n >= 0`: decimal digits without leading zeros. */
  function NatToString(n: nat): (r: string)
    decreases n
    ensures |r| >= 1 && AllDigits(r)
    ensures (r[0] == '0') <==> (n == 0)
  {
    if n < 10 then [DigitChar(n)] else NatToString(n / 10) + [DigitChar(n % 10)]
  }

  /** `int(s)` for a non-empty string of decimal digits. */
  function ParseDigits(s: string): nat
    requires AllDigits(s)
  {
    if |s| == 0 then 0 else 10 * ParseDigits(s[..|s| - 1]) + DigitValue(s[|s| - 1])
  }

  /** Parsing undoes rendering. */
  lemma {:induction false} ParseNatToString(n: nat)
    ensures ParseDigits(NatToString(n)) == n
  {
    var r := NatToString(n);
    if n >= 10 {
      assert r[..|r| - 1] == NatToString(n / 10);
      ParseNatToString(n / 10);
    }
  }

  /** Distinct numbers have distinct renderings. */
  lemma NatToStringInjective(a: nat, b: nat)
    requires NatToString(a) == NatToString(b)
    ensures a == b
  {
    ParseNatToString(a);
    ParseNatToString(b);
  }
}
