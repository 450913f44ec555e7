/**
  * The Python `str` operations the extraction pipeline relies on, written out
  * with Python's own semantics: `strip`, `find`/`rfind`, `in`, non-overlapping
  * `count` and `replace`, `split`, `join`, `splitlines(keepends=True)`,
  * `lower`, `isdigit` and slicing with negative indices.
  */
module PyStr {

  /** A value or Python's `None`. */
  datatype Option<T> = None | Some(value: T)

  /** `d.get(key, default)`, with a missing key as `None`. */
  function GetOr<T>(o: Option<T>, default: T): T {
    match o
    case None => default
    case Some(v) => v
  }

  // ----------------------------------------------------------------------
  // Characters
  // ----------------------------------------------------------------------

  /** `str.isspace()` on one character: exactly the characters Python calls whitespace. */
  predicate IsSpace(c: char) {
    c == ' ' || c == '\t' || c == '\n' || c == '\r' || c == '\U{0B}' || c == '\U{0C}'
    || ('\U{1C}' <= c <= '\U{1F}') || c == '\U{85}' || c == '\U{A0}' || c == '\U{1680}'
    || ('\U{2000}' <= c <= '\U{200A}') || c == '\U{2028}' || c == '\U{2029}'
    || c == '\U{202F}' || c == '\U{205F}' || c == '\U{3000}'
  }

  predicate IsDigitChar(c: char) { '0' <= c <= '9' }

  predicate IsUpperChar(c: char) { 'A' <= c <= 'Z' }

  /** `str.lower()` on one character (ASCII letters only). */
  function LowerChar(c: char): (r: char)
    ensures !IsUpperChar(r)
    ensures IsUpperChar(c) || r == c
  {
    if IsUpperChar(c) then (c as int + 32) as char else c
  }

  /** `str.lower()` (ASCII letters only). */
  function Lower(s: string): (r: string)
    ensures |r| == |s|
    ensures forall i :: 0 <= i < |s| ==> r[i] == LowerChar(s[i])
  {
    seq(|s|, i requires 0 <= i < |s| => LowerChar(s[i]))
  }

  /** A text is lower case when lowering it changes nothing. */
  predicate IsLower(s: string) {
    forall i :: 0 <= i < |s| ==> !IsUpperChar(s[i])
  }

  lemma LowerIsLower(s: string)
    ensures IsLower(Lower(s))
    ensures Lower(Lower(s)) == Lower(s)
  {
  }

  /** `str.isdigit()` (ASCII digits; the empty text is not a number). */
  predicate IsDigits(s: string) {
    |s| > 0 && forall i :: 0 <= i < |s| ==> IsDigitChar(s[i])
  }

  /** `int(s)` for a text of decimal digits. */
  function DigitsValue(s: string): (n: nat)
    requires forall i :: 0 <= i < |s| ==> IsDigitChar(s[i])
    decreases |s|
  {
    if s == [] then 0
    else
      assert IsDigitChar(s[|s| - 1]);
      10 * DigitsValue(s[..|s| - 1]) + (s[|s| - 1] as int - '0' as int)
  }

  // ----------------------------------------------------------------------
  // Indexing and slicing with Python's negative indices
  // ----------------------------------------------------------------------

  /** The position a Python slice bound `i` denotes in a text of length `n`. */
  function SliceBound(n: nat, i: int): (r: nat)
    ensures r <= n
    ensures 0 <= i <= n ==> r == i
    ensures i < 0 && 0 <= n + i ==> r == n + i
  {
    if i < 0 then (if n + i < 0 then 0 else n + i) else if i > n then n else i
  }

  /** `s[i:j]`: bounds wrap when negative and are clamped, and a reversed range is empty. */
  function Slice(s: string, i: int, j: int): (r: string)
    ensures |r| <= |s|
    ensures 0 <= i <= j <= |s| ==> r == s[i..j]
  {
    var a := SliceBound(|s|, i);
    var b := SliceBound(|s|, j);
    if a <= b then s[a..b] else []
  }

  /** `s[i]`, which raises IndexError outside `-len(s) <= i < len(s)`. */
  function At(s: string, i: int): char
    requires -|s| <= i < |s|
  {
    if i < 0 then s[|s| + i] else s[i]
  }

  // ----------------------------------------------------------------------
  // Stripping
  // ----------------------------------------------------------------------

  /** `lstrip` of every leading character satisfying `p`. */
  function LStripWhere(s: string, p: char -> bool): (r: string)
    ensures |r| <= |s| && r == s[|s| - |r|..]
    ensures r != [] ==> !p(r[0])
    ensures forall i :: 0 <= i < |s| - |r| ==> p(s[i])
  {
    if s != [] && p(s[0]) then
      var r := LStripWhere(s[1..], p);
      assert s[1..][|s| - 1 - |r|..] == s[|s| - |r|..];
      assert forall i :: 1 <= i < |s| - |r| ==> s[i] == s[1..][i - 1];
      r
    else s
  }

  /** `rstrip` of every trailing character satisfying `p`. */
  function RStripWhere(s: string, p: char -> bool): (r: string)
    ensures |r| <= |s| && r == s[..|r|]
    ensures r != [] ==> !p(r[|r| - 1])
    ensures forall i :: |r| <= i < |s| ==> p(s[i])
  {
    if s != [] && p(s[|s| - 1]) then
      var r := RStripWhere(s[..|s| - 1], p);
      assert s[..|s| - 1][..|r|] == s[..|r|];
      assert forall i :: |r| <= i < |s| - 1 ==> s[i] == s[..|s| - 1][i];
      r
    else s
  }

  /** `r` is the slice of `s` that starts at `i`. */
  predicate IsSliceAt(s: string, r: string, i: int) {
    0 <= i && i + |r| <= |s| && r == s[i..i + |r|]
  }

  /** Slicing a slice slices the original. */
  lemma SliceOfSlice(s: string, a: nat, b: nat, i: nat, j: nat)
    requires a <= b <= |s| && i <= j <= b - a
    ensures s[a..b][i..j] == s[a + i..a + j]
  {
    forall k | 0 <= k < j - i ensures s[a..b][i..j][k] == s[a + i..a + j][k] {
      assert s[a..b][i..j][k] == s[a..b][i + k] == s[a + i + k];
    }
  }

  /** A slice of the slice `s[a..b]` is a slice of `s`. */
  lemma SliceWithin(s: string, a: nat, b: nat, r: string, j: int)
    requires a <= b <= |s| && IsSliceAt(s[a..b], r, j)
    ensures IsSliceAt(s, r, a + j)
  {
    SliceOfSlice(s, a, b, j, j + |r|);
  }

  /** Stripping a slice of `s` leaves a piece of `s`. */
  lemma StrippedWithin(s: string, a: nat, b: nat)
    requires a <= b <= |s|
    ensures exists i :: 0 <= i <= |s| - |Strip(s[a..b])| && IsSliceAt(s, Strip(s[a..b]), i)
  {
    var t := s[a..b];
    var c := Strip(t);
    var j :| 0 <= j <= |t| - |c| && IsSliceAt(t, c, j);
    SliceWithin(s, a, b, c, j);
  }

  /** `strip` of the characters satisfying `p` on both ends. */
  function StripWhere(s: string, p: char -> bool): (r: string)
    ensures r != [] ==> !p(r[0]) && !p(r[|r| - 1])
    ensures exists i :: 0 <= i <= |s| - |r| && IsSliceAt(s, r, i)
  {
    var l := LStripWhere(s, p);
    var r := RStripWhere(l, p);
    var k := |s| - |l|;
    assert 0 <= k <= |s| - |r| && IsSliceAt(s, r, k);
    r
  }

  /** A string that neither starts nor ends with a character of `cs` is left alone by `strip(cs)`. */
  lemma StripCharsNothing(s: string, cs: set<char>)
    requires s != [] && s[0] !in cs && s[|s| - 1] !in cs
    ensures StripChars(s, cs) == s
  {
    var p := c => c in cs;
    assert LStripWhere(s, p) == s;
    assert RStripWhere(s, p) == s;
  }

  function Strip(s: string): string { StripWhere(s, IsSpace) }
  function LStrip(s: string): string { LStripWhere(s, IsSpace) }
  function RStrip(s: string): string { RStripWhere(s, IsSpace) }

  /** `strip(chars)`. */
  function StripChars(s: string, cs: set<char>): string { StripWhere(s, c => c in cs) }

  /** Neither end of `strip(chars)` is one of `chars`. */
  lemma StripCharsEnds(s: string, cs: set<char>)
    ensures var r := StripChars(s, cs); r != [] ==> r[0] !in cs && r[|r| - 1] !in cs
  {
    var p := c => c in cs;
    var r := StripWhere(s, p);
    assert r != [] ==> !p(r[0]) && !p(r[|r| - 1]);
  }

  /** `rstrip(chars)`. */
  function RStripChars(s: string, cs: set<char>): string { RStripWhere(s, c => c in cs) }

  lemma StripIdempotent(s: string, p: char -> bool)
    ensures StripWhere(StripWhere(s, p), p) == StripWhere(s, p)
  {
    var t := StripWhere(s, p);
    if t != [] {
      assert LStripWhere(t, p) == t;
      assert RStripWhere(t, p) == t;
    }
  }

  /** Stripping leaves nothing exactly when every character is stripped. */
  lemma StripAllGone(s: string, p: char -> bool)
    ensures StripWhere(s, p) == [] <==> forall i :: 0 <= i < |s| ==> p(s[i])
  {
    var l := LStripWhere(s, p);
    if l != [] {
      assert l[0] == s[|s| - |l|] && !p(l[0]);
    }
  }

  /** A text without whitespace at either end, e.g. the result of `strip()`. */
  predicate Trimmed(s: string) {
    s != [] ==> !IsSpace(s[0]) && !IsSpace(s[|s| - 1])
  }

  // ----------------------------------------------------------------------
  // Searching
  // ----------------------------------------------------------------------

  /** `t` occurs in `s` starting at position `i`. */
  predicate OccursAt(s: string, t: string, i: int) {
    0 <= i && i + |t| <= |s| && s[i..i + |t|] == t
  }

  /** `t in s`. */
  predicate Contains(s: string, t: string) {
    exists i :: 0 <= i <= |s| - |t| && OccursAt(s, t, i)
  }

  predicate StartsWith(s: string, t: string) { |t| <= |s| && s[..|t|] == t }

  predicate EndsWith(s: string, t: string) { |t| <= |s| && s[|s| - |t|..] == t }

  /** `s.find(t, i)`: the first occurrence at or after `i`, or -1. */
  function FindFrom(s: string, t: string, i: nat): (r: int)
    decreases |s| - i
    ensures r == -1 || (i <= r && OccursAt(s, t, r))
    ensures r == -1 ==> forall k :: i <= k ==> !OccursAt(s, t, k)
    ensures r != -1 ==> forall k :: i <= k < r ==> !OccursAt(s, t, k)
  {
    if i + |t| > |s| then -1
    else if s[i..i + |t|] == t then i
    else FindFrom(s, t, i + 1)
  }

  /** `s.find(t)`. */
  function Find(s: string, t: string): (r: int)
    ensures r == -1 <==> !Contains(s, t)
    ensures r != -1 ==> OccursAt(s, t, r) && forall k :: 0 <= k < r ==> !OccursAt(s, t, k)
  {
    FindFrom(s, t, 0)
  }

  /** The last occurrence of `t` starting strictly before `k`, or -1. */
  function RFindBelow(s: string, t: string, k: nat): (r: int)
    ensures r == -1 || (r < k && OccursAt(s, t, r))
    ensures r == -1 ==> forall j :: 0 <= j < k ==> !OccursAt(s, t, j)
    ensures r != -1 ==> forall j :: r < j < k ==> !OccursAt(s, t, j)
  {
    if k == 0 then -1
    else if OccursAt(s, t, k - 1) then k - 1
    else RFindBelow(s, t, k - 1)
  }

  /** `s.rfind(t)`. */
  function RFind(s: string, t: string): (r: int)
    ensures r == -1 <==> !Contains(s, t)
    ensures r != -1 ==> OccursAt(s, t, r) && forall j :: r < j ==> !OccursAt(s, t, j)
  {
    RFindBelow(s, t, |s| + 1)
  }

  /** `s.count(t)` for a non-empty `t`: non-overlapping occurrences, left to right. */
  function Count(s: string, t: string): (n: nat)
    requires |t| > 0
    ensures n * |t| <= |s|
  {
    if |s| < |t| then 0
    else if s[..|t|] == t then 1 + Count(s[|t|..], t)
    else Count(s[1..], t)
  }

  lemma {:induction false} CountPositiveIffContains(s: string, t: string)
    requires |t| > 0
    ensures Count(s, t) > 0 <==> Contains(s, t)
  {
    if |s| < |t| {
    } else if s[..|t|] == t {
      assert OccursAt(s, t, 0);
    } else {
      CountPositiveIffContains(s[1..], t);
      if Contains(s, t) {
        var i :| 0 <= i <= |s| - |t| && OccursAt(s, t, i);
        assert i != 0;
        assert s[1..][i - 1..i - 1 + |t|] == s[i..i + |t|];
        assert OccursAt(s[1..], t, i - 1);
      }
      if Contains(s[1..], t) {
        var i :| 0 <= i <= |s| - 1 - |t| && OccursAt(s[1..], t, i);
        assert s[1..][i..i + |t|] == s[i + 1..i + 1 + |t|];
        assert OccursAt(s, t, i + 1);
      }
    }
  }

  // ----------------------------------------------------------------------
  // Replacing and removing
  // ----------------------------------------------------------------------

  /** `s.replace(pat, rep)` for a non-empty `pat`: non-overlapping, left to right. */
  function Replace(s: string, pat: string, rep: string): (r: string)
    requires |pat| > 0
  {
    if |s| < |pat| then s
    else if s[..|pat|] == pat then rep + Replace(s[|pat|..], pat, rep)
    else [s[0]] + Replace(s[1..], pat, rep)
  }

  /** A pattern that does not occur leaves the text unchanged. */
  lemma {:induction false} ReplaceAbsent(s: string, pat: string, rep: string)
    requires |pat| > 0 && !Contains(s, pat)
    ensures Replace(s, pat, rep) == s
    decreases |s|
  {
    if |s| >= |pat| {
      assert !OccursAt(s, pat, 0);
      NotContainsSuffix(s, pat, 1);
      ReplaceAbsent(s[1..], pat, rep);
    }
  }

  /** The characters of `s` that are not `c`, in order. */
  function RemoveChar(s: string, c: char): (r: string)
    ensures |r| <= |s|
    ensures forall i :: 0 <= i < |r| ==> r[i] != c
    ensures forall x :: x in r ==> x in s
  {
    if s == [] then [] else (if s[0] == c then [] else [s[0]]) + RemoveChar(s[1..], c)
  }

  lemma {:induction false} ReplaceCharByNothing(s: string, c: char)
    ensures Replace(s, [c], "") == RemoveChar(s, c)
  {
    if s != [] {
      ReplaceCharByNothing(s[1..], c);
    }
  }

  /** None of the first `k` characters of `r` is a character of `rep`. */
  predicate AvoidsUpTo(r: string, rep: string, k: nat)
    requires k <= |r|
  {
    forall i :: 0 <= i < k ==> r[i] !in rep
  }

  /**
    * Where no character of `rep` shows up in the first `k` characters of a
    * replacement, those characters were copied unchanged from the input.
    */

  lemma {:induction false} ReplacePrefixUntouched(t: string, pat: string, rep: string, k: nat)
    requires |pat| > 0 && |rep| > 0
    requires k <= |Replace(t, pat, rep)|
    ensures AvoidsUpTo(Replace(t, pat, rep), rep, k) ==> k <= |t| && Replace(t, pat, rep)[..k] == t[..k]
  {
    var r := Replace(t, pat, rep);
    if |t| < |pat| {
    } else if t[..|pat|] == pat {
      if k > 0 {
        assert r == rep + Replace(t[|pat|..], pat, rep);
        assert r[0] == rep[0];
      }
    } else if k > 0 {
      var rest := Replace(t[1..], pat, rep);
      assert r == [t[0]] + rest;
      ReplacePrefixUntouched(t[1..], pat, rep, k - 1);
      if AvoidsUpTo(r, rep, k) {
        forall i | 0 <= i < k - 1 ensures rest[i] !in rep { assert rest[i] == r[i + 1]; }
        assert r[..k] == [t[0]] + rest[..k - 1];
      }
    }
  }

  /**
    * Replacing every `pat` by a non-empty `rep` that shares no character with
    * `pat` leaves no `pat` behind.
    */
  lemma {:induction false} ReplaceLeavesNone(s: string, pat: string, rep: string)
    requires |pat| > 0 && |rep| > 0
    requires forall c :: c in rep ==> c !in pat
    ensures !Contains(Replace(s, pat, rep), pat)
  {
    if |s| >= |pat| {
      if s[..|pat|] == pat {
        ReplaceLeavesNone(s[|pat|..], pat, rep);
        NoOccurrenceAfterRep(rep, Replace(s[|pat|..], pat, rep), pat);
      } else {
        ReplaceLeavesNone(s[1..], pat, rep);
        NoOccurrenceAfterCopy(s, pat, rep, pat);
      }
    }
  }

  /** A lower-case text found in `s` is found in `s.lower()` too. */
  lemma ContainsLowered(s: string, t: string)
    requires Contains(s, t) && IsLower(t)
    ensures Contains(Lower(s), t)
  {
    var i :| 0 <= i <= |s| - |t| && OccursAt(s, t, i);
    assert Lower(s)[i..i + |t|] == t by {
      forall j | 0 <= j < |t| ensures Lower(s)[i + j] == t[j] {
        assert s[i + j] == t[j];
      }
    }
    assert OccursAt(Lower(s), t, i);
  }

  /** Whatever holds `t + u` holds `t`. */
  lemma ContainsPrefixOf(s: string, t: string, u: string)
    requires Contains(s, t + u)
    ensures Contains(s, t)
  {
    var i :| 0 <= i <= |s| - |t + u| && OccursAt(s, t + u, i);
    assert s[i..i + |t|] == s[i..i + |t + u|][..|t|] == (t + u)[..|t|] == t;
    assert OccursAt(s, t, i);
  }

  /** A one-character text occurs exactly when the character does. */
  lemma ContainsChar(s: string, c: char)
    ensures Contains(s, [c]) <==> c in s
  {
    if c in s {
      var i :| 0 <= i < |s| && s[i] == c;
      assert OccursAt(s, [c], i);
    }
    if Contains(s, [c]) {
      var i :| 0 <= i <= |s| - 1 && OccursAt(s, [c], i);
      assert s[i..i + 1][0] == s[i];
    }
  }

  /** What does not occur in `s` does not occur in any of its suffixes. */
  lemma NotContainsSuffix(s: string, t: string, k: nat)
    requires k <= |s| && !Contains(s, t)
    ensures !Contains(s[k..], t)
  {
    forall i | 0 <= i <= |s[k..]| - |t| ensures !OccursAt(s[k..], t, i) {
      assert s[k..][i..i + |t|] == s[k + i..k + i + |t|];
      assert !OccursAt(s, t, k + i);
    }
  }

  /** What does not occur in `s` does not occur in a slice of it. */
  lemma SliceKeepsAbsent(s: string, r: string, i: int, t: string)
    requires IsSliceAt(s, r, i) && !Contains(s, t)
    ensures !Contains(r, t)
  {
    forall k | 0 <= k <= |r| - |t| ensures !OccursAt(r, t, k) {
      var a, b := r[k..k + |t|], s[i + k..i + k + |t|];
      forall x | 0 <= x < |t| ensures a[x] == b[x] {
        assert r[k + x] == s[i..i + |r|][k + x] == s[i + k + x];
      }
      assert a == b;
      assert !OccursAt(s, t, i + k);
    }
  }

  /** What does not occur in `s` does not occur once `s` is stripped of any characters. */
  lemma StripWhereKeepsAbsent(s: string, p: char -> bool, t: string)
    requires !Contains(s, t)
    ensures !Contains(StripWhere(s, p), t)
  {
    var i :| 0 <= i <= |s| - |StripWhere(s, p)| && IsSliceAt(s, StripWhere(s, p), i);
    SliceKeepsAbsent(s, StripWhere(s, p), i, t);
  }

  lemma StripKeepsAbsent(s: string, t: string)
    requires !Contains(s, t)
    ensures !Contains(Strip(s), t)
  {
    var i :| 0 <= i <= |s| - |Strip(s)| && IsSliceAt(s, Strip(s), i);
    SliceKeepsAbsent(s, Strip(s), i, t);
  }

  /** `strip` only removes whitespace: every other character of `s` survives it. */
  lemma StripKeepsPresent(s: string, c: char)
    requires c in s && !IsSpace(c)
    ensures c in Strip(s)
  {
    var i :| 0 <= i < |s| && s[i] == c;
    LStripKeepsAt(s, IsSpace, i);
    var l := LStripWhere(s, IsSpace);
    RStripKeepsAt(l, IsSpace, i - (|s| - |l|));
  }

  lemma LStripKeepsAt(s: string, p: char -> bool, i: nat)
    requires i < |s| && !p(s[i])
    ensures var l := LStripWhere(s, p); |s| - |l| <= i && l[i - (|s| - |l|)] == s[i]
  {
  }

  lemma RStripKeepsAt(s: string, p: char -> bool, j: nat)
    requires j < |s| && !p(s[j])
    ensures j < |RStripWhere(s, p)| && RStripWhere(s, p)[j] == s[j]
  {
  }

  /**
    * `replace` never creates a non-empty text `t` that shares no character
    * with the replacement: every occurrence in the result lies in a stretch
    * copied from the input.
    */
  lemma {:induction false} ReplaceKeepsAbsent(s: string, pat: string, rep: string, t: string)
    requires |pat| > 0 && |rep| > 0 && |t| > 0
    requires forall c :: c in rep ==> c !in t
    requires !Contains(s, t)
    ensures !Contains(Replace(s, pat, rep), t)
    decreases |s|
  {
    if |s| >= |pat| {
      if s[..|pat|] == pat {
        NotContainsSuffix(s, t, |pat|);
        ReplaceKeepsAbsent(s[|pat|..], pat, rep, t);
        NoOccurrenceAfterRep(rep, Replace(s[|pat|..], pat, rep), t);
      } else {
        NotContainsSuffix(s, t, 1);
        ReplaceKeepsAbsent(s[1..], pat, rep, t);
        NoOccurrenceAfterCopy(s, pat, rep, t);
      }
    }
  }

  /** A replacement sharing no character with `t`, put before a text without `t`, creates no `t`. */
  lemma NoOccurrenceAfterRep(rep: string, rest: string, t: string)
    requires |t| > 0 && (forall c :: c in rep ==> c !in t) && !Contains(rest, t)
    ensures !Contains(rep + rest, t)
  {
    var r := rep + rest;
    forall i | 0 <= i <= |r| - |t| ensures !OccursAt(r, t, i) {
      if i < |rep| {
        assert r[i] == rep[i] && rep[i] in rep;
        assert t[0] in t;
        assert r[i..i + |t|][0] != t[0];
      } else {
        assert rest[i - |rep|..i - |rep| + |t|] == r[i..i + |t|];
        assert !OccursAt(rest, t, i - |rep|);
      }
    }
  }

  /**
    * A copied first character followed by the replaced rest creates no `t`
    * when the rest has none and `t` does not start the input: an occurrence
    * at the front would avoid the replacement's characters and so be copied.
    */
  lemma NoOccurrenceAfterCopy(s: string, pat: string, rep: string, t: string)
    requires |pat| > 0 && |rep| > 0 && |t| > 0 && s != []
    requires (forall c :: c in rep ==> c !in t) && !OccursAt(s, t, 0)
    requires !Contains(Replace(s[1..], pat, rep), t)
    ensures !Contains([s[0]] + Replace(s[1..], pat, rep), t)
  {
    var rest := Replace(s[1..], pat, rep);
    var r := [s[0]] + rest;
    forall i | 0 <= i <= |r| - |t| ensures !OccursAt(r, t, i) {
      if i == 0 {
        FrontNotCopied(s, pat, rep, t);
      } else {
        ShiftedAbsent(s[0], rest, t, i);
      }
    }
  }

  /** `t` does not start the copied first character followed by the replaced rest. */
  lemma FrontNotCopied(s: string, pat: string, rep: string, t: string)
    requires |pat| > 0 && |rep| > 0 && |t| > 0 && s != []
    requires (forall c :: c in rep ==> c !in t) && !OccursAt(s, t, 0)
    ensures !OccursAt([s[0]] + Replace(s[1..], pat, rep), t, 0)
  {
    var rest := Replace(s[1..], pat, rep);
    var r := [s[0]] + rest;
    if |t| <= |r| && r[..|t|] == t {
      ReplacePrefixUntouched(s[1..], pat, rep, |t| - 1);
      forall j | 0 <= j < |t| - 1 ensures rest[j] !in rep {
        assert rest[j] == r[j + 1] == t[j + 1];
        assert t[j + 1] in t;
      }
      assert AvoidsUpTo(rest, rep, |t| - 1);
      HeadCopied(s, rest, t);
      assert false;
    }
  }

  lemma HeadCopied(s: string, rest: string, t: string)
    requires s != [] && 0 < |t| <= |s| && |t| - 1 <= |rest|
    requires rest[..|t| - 1] == s[1..][..|t| - 1] && ([s[0]] + rest)[..|t|] == t
    ensures OccursAt(s, t, 0)
  {
    assert s[..|t|] == [s[0]] + s[1..][..|t| - 1];
    assert ([s[0]] + rest)[..|t|] == [s[0]] + rest[..|t| - 1];
  }

  /** Past the first character, an occurrence would be one in the rest. */
  lemma ShiftedAbsent(c: char, rest: string, t: string, i: nat)
    requires 1 <= i && !Contains(rest, t)
    ensures !OccursAt([c] + rest, t, i)
  {
    var r := [c] + rest;
    if i + |t| <= |r| {
      assert rest[i - 1..i - 1 + |t|] == r[i..i + |t|];
      assert !OccursAt(rest, t, i - 1);
    }
  }


  /** Deleting every occurrence of a non-empty pattern never lengthens a text, and shortens it when the pattern occurs. */
  lemma {:induction false} ReplaceByNothingShorter(s: string, pat: string)
    requires |pat| > 0
    ensures |Replace(s, pat, "")| <= |s|
    ensures Contains(s, pat) ==> |Replace(s, pat, "")| < |s|
    decreases |s|
  {
    if |s| >= |pat| {
      if s[..|pat|] == pat {
        ReplaceByNothingShorter(s[|pat|..], pat);
      } else {
        ReplaceByNothingShorter(s[1..], pat);
        if Contains(s, pat) {
          var i :| 0 <= i <= |s| - |pat| && OccursAt(s, pat, i);
          assert i != 0;
          assert s[1..][i - 1..i - 1 + |pat|] == s[i..i + |pat|];
          assert OccursAt(s[1..], pat, i - 1);
        }
      }
    }
  }

  /** The characters of `s` outside `cs`, in order. */
  function Without(s: string, cs: set<char>): (r: string)
    ensures |r| <= |s|
    ensures forall c :: c in r <==> c in s && c !in cs
  {
    if s == [] then [] else (if s[0] in cs then [] else [s[0]]) + Without(s[1..], cs)
  }

  /** Deleting one more character after a set of them deletes the union. */
  lemma {:induction false} RemoveCharWithout(s: string, cs: set<char>, c: char)
    ensures RemoveChar(Without(s, cs), c) == Without(s, cs + {c})
  {
    if s != [] {
      RemoveCharWithout(s[1..], cs, c);
      var w := Without(s, cs);
      if s[0] !in cs {
        assert w == [s[0]] + Without(s[1..], cs);
        assert w[1..] == Without(s[1..], cs);
        assert RemoveChar(w, c) == (if s[0] == c then [] else [s[0]]) + RemoveChar(w[1..], c);
      } else {
        assert w == Without(s[1..], cs);
      }
    }
  }

  /** Deleting nothing keeps the text. */
  lemma {:induction false} WithoutNothing(s: string)
    ensures Without(s, {}) == s
  {
    if s != [] {
      WithoutNothing(s[1..]);
    }
  }

  // ----------------------------------------------------------------------
  // Splitting and joining
  // ----------------------------------------------------------------------

  /** `s.split(sep)` for a non-empty separator. */
  function Split(s: string, sep: string): (r: seq<string>)
    requires |sep| > 0
    ensures |r| >= 1
    decreases |s|
  {
    var i := Find(s, sep);
    if i < 0 then [s] else [s[..i]] + Split(s[i + |sep|..], sep)
  }

  /** `sep.join(parts)`. */
  function Join(parts: seq<string>, sep: string): string {
    if parts == [] then ""
    else if |parts| == 1 then parts[0]
    else parts[0] + sep + Join(parts[1..], sep)
  }

  lemma JoinCons(a: string, rest: seq<string>, sep: string)
    requires rest != []
    ensures Join([a] + rest, sep) == a + sep + Join(rest, sep)
  {
    assert ([a] + rest)[1..] == rest;
  }

  /** One step of `split`: the text before the first separator, then the split of the rest. */
  lemma SplitStep(s: string, sep: string)
    requires |sep| > 0
    ensures Find(s, sep) < 0 ==> Split(s, sep) == [s]
    ensures Find(s, sep) >= 0 ==> Split(s, sep) == [s[..Find(s, sep)]] + Split(s[Find(s, sep) + |sep|..], sep)
  {
  }

  /** The first piece of a split holds no separator; the others join back to what follows the first separator. */
  lemma SplitAtFirst(c: string, sep: string)
    requires |sep| > 0
    ensures var parts := Split(c, sep);
      var i := Find(c, sep);
      !Contains(parts[0], sep) &&
      (i == -1 ==> parts == [c]) &&
      (i != -1 ==> parts[0] == c[..i] && |parts| >= 2 && Join(parts[1..], sep) == c[i + |sep|..])
  {
    FirstPieceLacksSep(c, sep);
    var i := Find(c, sep);
    SplitStep(c, sep);
    if i != -1 {
      var parts := Split(c, sep);
      JoinSplit(c[i + |sep|..], sep);
      assert parts[1..] == Split(c[i + |sep|..], sep);
    }
  }

  lemma FirstPieceLacksSep(c: string, sep: string)
    requires |sep| > 0
    ensures !Contains(Split(c, sep)[0], sep)
  {
    SplitPiecesLackSep(c, sep);
    assert Split(c, sep)[0] in Split(c, sep);
  }

  /** `sep.join(s.split(sep)) == s`. */
  lemma {:induction false} JoinSplit(s: string, sep: string)
    requires |sep| > 0
    ensures Join(Split(s, sep), sep) == s
    decreases |s|
  {
    SplitStep(s, sep);
    var i := Find(s, sep);
    if i >= 0 {
      var tail := s[i + |sep|..];
      JoinSplit(tail, sep);
      JoinCons(s[..i], Split(tail, sep), sep);
      assert OccursAt(s, sep, i);
      assert s == s[..i] + sep + tail;
    }
  }

  /** Splitting a joined list on a one-character separator that no part holds gives the parts back. */
  lemma {:induction false} SplitJoinChar(parts: seq<string>, c: char)
    requires parts != []
    requires forall k :: 0 <= k < |parts| ==> c !in parts[k]
    ensures Split(Join(parts, [c]), [c]) == parts
    decreases |parts|
  {
    var p := parts[0];
    if |parts| == 1 {
      ContainsChar(p, c);
    } else {
      var rest := parts[1..];
      var tail := Join(rest, [c]);
      var s := p + [c] + tail;
      JoinCons(p, rest, [c]);
      assert [p] + rest == parts;
      assert OccursAt(s, [c], |p|);
      forall k | 0 <= k < |p|
        ensures !OccursAt(s, [c], k)
      {
        assert s[k..k + 1] == [p[k]];
      }
      assert Find(s, [c]) == |p|;
      assert s[..|p|] == p && s[|p| + 1..] == tail;
      SplitJoinChar(rest, c);
    }
  }

  /** No piece of `s.split(sep)` contains the separator. */
  lemma {:induction false} SplitPiecesLackSep(s: string, sep: string)
    requires |sep| > 0
    ensures forall p :: p in Split(s, sep) ==> !Contains(p, sep)
    decreases |s|
  {
    var i := Find(s, sep);
    if i >= 0 {
      SplitPiecesLackSep(s[i + |sep|..], sep);
      forall k | 0 <= k <= i - |sep| ensures !OccursAt(s[..i], sep, k) {
        assert s[..i][k..k + |sep|] == s[k..k + |sep|];
        assert k < i;
        assert !OccursAt(s, sep, k);
      }
    }
  }

  /** The non-empty stripped pieces of a list, in order (`[p.strip() for p in ps if p.strip()]`). */
  function NonEmptyStripped(ps: seq<string>): (r: seq<string>)
    ensures |r| <= |ps|
    ensures forall p :: p in r ==> p != "" && Trimmed(p)
  {
    if ps == [] then []
    else (if Strip(ps[0]) == "" then [] else [Strip(ps[0])]) + NonEmptyStripped(ps[1..])
  }

  /** Every item `NonEmptyStripped` keeps is an item of the input, stripped. */
  lemma {:induction false} NonEmptyStrippedFrom(ps: seq<string>)
    ensures forall x :: x in NonEmptyStripped(ps) ==> exists i :: 0 <= i < |ps| && x == Strip(ps[i])
  {
    if ps != [] {
      NonEmptyStrippedFrom(ps[1..]);
      forall x | x in NonEmptyStripped(ps) ensures exists i :: 0 <= i < |ps| && x == Strip(ps[i]) {
        if x in NonEmptyStripped(ps[1..]) {
          var i :| 0 <= i < |ps[1..]| && x == Strip(ps[1..][i]);
          assert x == Strip(ps[i + 1]);
        } else {
          assert x == Strip(ps[0]);
        }
      }
    }
  }

  /** Every item that is not blank is kept, stripped. */
  lemma {:induction false} NonEmptyStrippedKeeps(ps: seq<string>, i: nat)
    requires i < |ps| && Strip(ps[i]) != ""
    ensures Strip(ps[i]) in NonEmptyStripped(ps)
    decreases i
  {
    var x := Strip(ps[i]);
    var head := if Strip(ps[0]) == "" then [] else [Strip(ps[0])];
    var tail := NonEmptyStripped(ps[1..]);
    NonEmptyStrippedCons(ps, head, tail);
    if i > 0 {
      assert ps[1..][i - 1] == ps[i];
      NonEmptyStrippedKeeps(ps[1..], i - 1);
      InAppended(head, tail, x);
    } else {
      assert head == [x];
    }
  }

  lemma NonEmptyStrippedCons(ps: seq<string>, head: seq<string>, tail: seq<string>)
    requires ps != [] && head == (if Strip(ps[0]) == "" then [] else [Strip(ps[0])])
    requires tail == NonEmptyStripped(ps[1..])
    ensures NonEmptyStripped(ps) == head + tail
  {
  }

  lemma InAppended<T>(a: seq<T>, b: seq<T>, x: T)
    requires x in b
    ensures x in a + b
  {
    var j :| 0 <= j < |b| && b[j] == x;
    assert (a + b)[|a| + j] == x;
  }

  /** Each item with whitespace stripped (`[p.strip() for p in ps]`). */
  function StripEach(ps: seq<string>): (r: seq<string>)
    ensures |r| == |ps|
    ensures forall i :: 0 <= i < |ps| ==> r[i] == Strip(ps[i])
  {
    seq(|ps|, i requires 0 <= i < |ps| => Strip(ps[i]))
  }

  /** The line-boundary characters of `str.splitlines`. */
  predicate IsLineBreak(c: char) {
    c == '\n' || c == '\r' || c == '\U{0B}' || c == '\U{0C}' || ('\U{1C}' <= c <= '\U{1E}')
    || c == '\U{85}' || c == '\U{2028}' || c == '\U{2029}'
  }

  /** The length of the first line of `s`, its line break (`\r\n` counts as one) included. */
  function FirstLineLength(s: string): (n: nat)
    requires s != []
    ensures 0 < n <= |s|
    decreases |s|
  {
    if s[0] == '\r' && |s| > 1 && s[1] == '\n' then 2
    else if IsLineBreak(s[0]) || |s| == 1 then 1
    else 1 + FirstLineLength(s[1..])
  }

  /** `s.splitlines(keepends=True)`. */
  function SplitLinesKeepEnds(s: string): (r: seq<string>)
    ensures forall l :: l in r ==> l != ""
    decreases |s|
  {
    if s == [] then []
    else
      var n := FirstLineLength(s);
      [s[..n]] + SplitLinesKeepEnds(s[n..])
  }

  /** `"".join(parts)`. */
  function Concat(parts: seq<string>): string {
    if parts == [] then "" else parts[0] + Concat(parts[1..])
  }

  lemma {:induction false} ConcatSplitLines(s: string)
    ensures Concat(SplitLinesKeepEnds(s)) == s
    decreases |s|
  {
    if s != [] {
      var n := FirstLineLength(s);
      ConcatSplitLines(s[n..]);
      assert s == s[..n] + s[n..];
    }
  }
}
