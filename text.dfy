/**
 * The string operations the server applies to user text: Python's `str.strip()`,
 * `str.lower()` and `str.title()`, SQLite's `LIKE '%pattern%'`, and the decimal
 * rendering used in log messages.
 */
module Text {

  /** The characters for which Python's `str.isspace()` holds: the ones `str.strip()` removes. */
  const Whitespace: set<char> := {
    '\t', '\n', '\U{0B}', '\U{0C}', '\r', '\U{1C}', '\U{1D}', '\U{1E}', '\U{1F}', ' ', '\U{85}', '\U{A0}',
    '\U{1680}', '\U{2000}', '\U{2001}', '\U{2002}', '\U{2003}', '\U{2004}', '\U{2005}', '\U{2006}', '\U{2007}',
    '\U{2008}', '\U{2009}', '\U{200A}', '\U{2028}', '\U{2029}', '\U{202F}', '\U{205F}', '\U{3000}'}

  predicate IsSpace(c: char) {
    c in Whitespace
  }

  predicate AllSpace(s: string) {
    forall i :: 0 <= i < |s| ==> IsSpace(s[i])
  }

  function TrimStart(s: string): string {
    if s != [] && IsSpace(s[0]) then TrimStart(s[1..]) else s
  }

  function TrimEnd(s: string): string {
    if s != [] && IsSpace(s[|s| - 1]) then TrimEnd(s[..|s| - 1]) else s
  }

  /** Python's `str.strip()` with no argument. */
  function Strip(s: string): string {
    TrimEnd(TrimStart(s))
  }

  /** `TrimStart` drops a run of leading whitespace and stops at the first non-space. */
  lemma {:induction false} TrimStartShape(s: string)
    ensures var r := TrimStart(s);
      && |r| <= |s| && r == s[|s| - |r|..]
      && AllSpace(s[..|s| - |r|])
      && (r == [] || !IsSpace(r[0]))
  {
    if s != [] && IsSpace(s[0]) {
      TrimStartShape(s[1..]);
      var r := TrimStart(s[1..]);
      assert s[1..][|s| - 1 - |r|..] == s[|s| - |r|..];
      assert s[..|s| - |r|] == [s[0]] + s[1..][..|s| - 1 - |r|];
    }
  }

  /** `TrimEnd` drops a run of trailing whitespace and stops at the last non-space. */
  lemma {:induction false} TrimEndShape(s: string)
    ensures var r := TrimEnd(s);
      && |r| <= |s| && r == s[..|r|]
      && AllSpace(s[|r|..])
      && (r == [] || !IsSpace(r[|r| - 1]))
  {
    if s != [] && IsSpace(s[|s| - 1]) {
      var s' := s[..|s| - 1];
      TrimEndShape(s');
      var r := TrimEnd(s');
      assert s'[..|r|] == s[..|r|];
      assert s[|r|..] == s'[|r|..] + [s[|s| - 1]];
    }
  }

  /** `r` occurs in `s` at offset `k`. */
  predicate SliceAt(s: string, k: int, r: string) {
    0 <= k <= |s| - |r| && r == s[k..k + |r|]
  }

  /** What `strip()` returns is a piece of the input that starts and ends with a non-space. */
  lemma StripShape(s: string)
    ensures var r := Strip(s);
      && (r == [] || (!IsSpace(r[0]) && !IsSpace(r[|r| - 1])))
      && SliceAt(s, |s| - |TrimStart(s)|, r)
  {
    var a := TrimStart(s);
    var r := TrimEnd(a);
    TrimStartShape(s);
    TrimEndShape(a);
    var k := |s| - |a|;
    assert a == s[k..] && r == a[..|r|];
    assert SliceAt(s, k, r) by {
      assert s[k..k + |r|] == a[..|r|];
    }
    assert r == [] || (!IsSpace(r[0]) && !IsSpace(r[|r| - 1])) by {
      if r != [] {
        assert r[0] == a[0];
      }
    }
  }

  /** `strip()` yields the empty string exactly when the input is all whitespace. */
  lemma StripEmptyIff(s: string)
    ensures Strip(s) == [] <==> AllSpace(s)
  {
    var a := TrimStart(s);
    TrimStartShape(s);
    TrimEndShape(a);
    if a == [] {
      assert s[..|s|] == s;
    } else {
      assert a[0] == s[|s| - |a|];
      assert AllSpace(a[|TrimEnd(a)|..]);
    }
  }

  /** Stripping twice is stripping once. */
  lemma StripIdempotent(s: string)
    ensures Strip(Strip(s)) == Strip(s)
  {
    var r := Strip(s);
    StripShape(s);
    if r != [] {
      assert TrimStart(r) == r;
      assert TrimEnd(r) == r;
    }
  }

  /** Text that neither starts nor ends with whitespace is left alone by `strip()`. */
  lemma StripKeepsTrimmed(s: string)
    requires s != [] && !IsSpace(s[0]) && !IsSpace(s[|s| - 1])
    ensures Strip(s) == s
  {
    assert TrimStart(s) == s;
  }

  predicate IsUpper(c: char) { 'A' <= c <= 'Z' }
  predicate IsLower(c: char) { 'a' <= c <= 'z' }

  /** A letter with case; in this model only the ASCII letters are cased. */
  predicate IsCased(c: char) { IsUpper(c) || IsLower(c) }

  function LowerChar(c: char): (d: char)
    ensures IsCased(d) == IsCased(c) && !IsUpper(d)
  {
    if IsUpper(c) then (c as int + 32) as char else c
  }

  function UpperChar(c: char): (d: char)
    ensures IsCased(d) == IsCased(c) && !IsLower(d)
  {
    if IsLower(c) then (c as int - 32) as char else c
  }

  /** Python's `str.lower()`, restricted to ASCII case mapping. */
  function Lower(s: string): (r: string)
    ensures |r| == |s|
    ensures forall i :: 0 <= i < |s| ==> r[i] == LowerChar(s[i])
  {
    if s == [] then [] else [LowerChar(s[0])] + Lower(s[1..])
  }

  /**
   * Python's `str.title()`: a cased character is upper-cased when the character
   * before it is not cased and lower-cased otherwise; other characters are kept.
   */
  function TitleFrom(s: string, prevCased: bool): (r: string)
    ensures |r| == |s|
  {
    if s == [] then []
    else
      var c := if prevCased then LowerChar(s[0]) else UpperChar(s[0]);
      [c] + TitleFrom(s[1..], IsCased(s[0]))
  }

  function Title(s: string): string {
    TitleFrom(s, false)
  }

  /** The title-cased character at each position depends only on it and its left neighbour. */
  lemma {:induction false} TitleFromAt(s: string, prevCased: bool, i: nat)
    requires i < |s|
    ensures var before := if i == 0 then prevCased else IsCased(s[i - 1]);
      TitleFrom(s, prevCased)[i] == (if before then LowerChar(s[i]) else UpperChar(s[i]))
  {
    if i > 0 {
      TitleFromAt(s[1..], IsCased(s[0]), i - 1);
    }
  }

  /** Title-casing is idempotent, so a title-cased key is a fixed point. */
  lemma {:induction false} TitleFromIdempotent(s: string, prevCased: bool)
    ensures TitleFrom(TitleFrom(s, prevCased), prevCased) == TitleFrom(s, prevCased)
  {
    if s != [] {
      var t := TitleFrom(s, prevCased);
      TitleFromIdempotent(s[1..], IsCased(s[0]));
      assert t[1..] == TitleFrom(s[1..], IsCased(s[0]));
      assert IsCased(t[0]) == IsCased(s[0]);
    }
  }

  lemma TitleIdempotent(s: string)
    ensures Title(Title(s)) == Title(s)
  {
    TitleFromIdempotent(s, false);
  }

  /** The lower-cased piece of `v` at offset `i` is exactly `p`. */
  predicate MatchesAt(v: string, p: string, i: int) {
    0 <= i <= |v| - |p| && Lower(v[i..i + |p|]) == p
  }

  /**
   * SQLite's `v LIKE '%p%'` for a lower-case pattern `p` without wildcards,
   * scanning `v` from the left.
   */
  predicate ContainsFolded(v: string, p: string)
    decreases |v|
  {
    if |v| < |p| then false
    else if Lower(v[..|p|]) == p then true
    else ContainsFolded(v[1..], p)
  }

  /** The scan succeeds exactly when `p` occurs in `v`, ASCII letters compared without regard to case. */
  lemma {:induction false} ContainsFoldedIff(v: string, p: string)
    ensures ContainsFolded(v, p) <==> exists i :: MatchesAt(v, p, i)
    decreases |v|
  {
    if |v| < |p| {
    } else if Lower(v[..|p|]) == p {
      assert v[..|p|] == v[0..0 + |p|];
      assert MatchesAt(v, p, 0);
    } else {
      ContainsFoldedIff(v[1..], p);
      forall i | MatchesAt(v, p, i) ensures i >= 1 && MatchesAt(v[1..], p, i - 1) {
        assert v[..|p|] == v[0..0 + |p|];
        assert v[i..i + |p|] == v[1..][i - 1..i - 1 + |p|];
      }
      if ContainsFolded(v[1..], p) {
        var j :| MatchesAt(v[1..], p, j);
        assert v[j + 1..j + 1 + |p|] == v[1..][j..j + |p|];
        assert MatchesAt(v, p, j + 1);
      }
    }
  }

  /** The empty string matches no non-empty pattern. */
  lemma EmptyContainsNothing(p: string)
    requires p != []
    ensures !ContainsFolded([], p)
  {
  }

  function DigitChar(d: nat): char
    requires d < 10
  {
    "0123456789"[d]
  }

  /** Python's `str(n)` for a non-negative integer. */
  function NatToString(n: nat): (r: string)
    ensures |r| >= 1
    decreases n
  {
    if n < 10 then [DigitChar(n)] else NatToString(n / 10) + [DigitChar(n % 10)]
  }
}
