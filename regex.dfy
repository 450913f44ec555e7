/**
  * The part of the `regex` package the pipeline uses: a match is a span plus
  * the groups the pattern captures; `finditer` scans left to right for
  * non-overlapping matches; `search`, `sub` and `split` are defined from it.
  *
  * A pattern with a concrete model is a `MatchAt`: the match the pattern
  * finds when the engine tries it at one position (leftmost alternative
  * first). Patterns without a concrete model are an `Engine` parameter that
  * returns the matches directly.
  */
module Regex {
  import opened PyStr

  /**
    * A match of `s[start..end]`. `g1` and `g2` are the groups the pattern
    * captures, in the order its own documentation gives them; an absent
    * optional group is the empty text.
    */
  datatype Match = Match(start: nat, end: nat, g1: string, g2: string)

  /** The match a pattern finds when tried at one position, if any. */
  type MatchAt = (string, nat) -> Option<Match>

  /** `m.group(0)`. */
  function Text(s: string, m: Match): string {
    if m.start <= m.end <= |s| then s[m.start..m.end] else ""
  }

  /** `m` is a non-empty match of `s` that starts at `i`. */
  predicate StartsHere(s: string, i: nat, m: Match) {
    m.start == i && i < m.end <= |s|
  }

  /** The match `at` reports at `i`, kept only when it is a non-empty match starting there. */
  function TryAt(at: MatchAt, s: string, i: nat): (r: Option<Match>)
    ensures r.Some? ==> StartsHere(s, i, r.value) && r == at(s, i)
  {
    var r := at(s, i);
    if r.Some? && StartsHere(s, i, r.value) then r else None
  }

  /** Matches inside `s`, at or after `from`, each ending before the next one starts. */
  predicate Ordered(s: string, ms: seq<Match>, from: nat) {
    (forall i :: 0 <= i < |ms| ==> from <= ms[i].start < ms[i].end <= |s|)
    && (forall i, j :: 0 <= i < j < |ms| ==> ms[i].end <= ms[j].start)
  }

  /** `finditer` started at `pos`: take the match at the current position, else move on by one. */
  function FindIterFrom(at: MatchAt, s: string, pos: nat): (ms: seq<Match>)
    ensures Ordered(s, ms, pos)
    ensures forall k :: 0 <= k < |ms| ==> TryAt(at, s, ms[k].start) == Some(ms[k])
    decreases |s| - pos
  {
    if pos >= |s| then []
    else
      match TryAt(at, s, pos)
      case Some(m) => [m] + FindIterFrom(at, s, m.end)
      case None => FindIterFrom(at, s, pos + 1)
  }

  /** `finditer`. */
  function FindIter(at: MatchAt, s: string): (ms: seq<Match>)
    ensures Ordered(s, ms, 0)
    ensures forall k :: 0 <= k < |ms| ==> TryAt(at, s, ms[k].start) == Some(ms[k])
  {
    FindIterFrom(at, s, 0)
  }

  /** No match starts anywhere in `[lo, hi)`. */
  predicate NoneIn(at: MatchAt, s: string, lo: nat, hi: nat) {
    forall k :: lo <= k < hi ==> TryAt(at, s, k).None?
  }

  /**
    * The first match `finditer` reports is the leftmost one: the pattern
    * matches nowhere before it, and it is exactly what the pattern gives at
    * its start; with no match anywhere, `finditer` reports nothing.
    */
  lemma {:induction false} FindIterLeftmost(at: MatchAt, s: string, pos: nat)
    ensures FindIterFrom(at, s, pos) == [] <==> NoneIn(at, s, pos, |s|)
    ensures FindIterFrom(at, s, pos) != [] ==>
      var m := FindIterFrom(at, s, pos)[0];
      NoneIn(at, s, pos, m.start) && TryAt(at, s, m.start) == Some(m)
    decreases |s| - pos
  {
    if pos < |s| {
      match TryAt(at, s, pos)
      case Some(m) =>
      case None => FindIterLeftmost(at, s, pos + 1);
    }
  }

  /** `search`: the leftmost match, if any. */
  function Search(at: MatchAt, s: string): (r: Option<Match>)
    ensures r.None? <==> NoneIn(at, s, 0, |s|)
    ensures r.Some? ==> StartsHere(s, r.value.start, r.value) && NoneIn(at, s, 0, r.value.start)
    ensures r.Some? ==> at(s, r.value.start) == r
  {
    FindIterLeftmost(at, s, 0);
    var ms := FindIter(at, s);
    if ms == [] then None else Some(ms[0])
  }

  /**
    * `finditer(..., overlapped=True)`: the search restarts one position after
    * the start of each match, so every position where the pattern matches
    * contributes its match.
    */
  function OverlappedFrom(at: MatchAt, s: string, pos: nat): (ms: seq<Match>)
    ensures forall k :: 0 <= k < |ms| ==> pos <= ms[k].start && StartsHere(s, ms[k].start, ms[k])
    ensures forall k :: 0 <= k < |ms| ==> TryAt(at, s, ms[k].start) == Some(ms[k])
    decreases |s| - pos
  {
    if pos >= |s| then []
    else (match TryAt(at, s, pos) case Some(m) => [m] case None => []) + OverlappedFrom(at, s, pos + 1)
  }

  function Overlapped(at: MatchAt, s: string): seq<Match> {
    OverlappedFrom(at, s, 0)
  }

  /** The last of the left-to-right matches, if any. */
  function LastMatch(at: MatchAt, s: string): (r: Option<Match>)
    ensures r.None? <==> FindIter(at, s) == []
    ensures r.Some? ==> StartsHere(s, r.value.start, r.value) && r.value in FindIter(at, s)
    ensures r.Some? ==> at(s, r.value.start) == r
  {
    var ms := FindIter(at, s);
    if ms == [] then None else Some(ms[|ms| - 1])
  }

  /**
    * `sub` over the matches `ms`, each replaced by `rep` of that match and
    * the text between them copied; a match that does not lie after the
    * previous one inside `s` is skipped.
    */
  function SubFrom(s: string, ms: seq<Match>, rep: Match -> string, from: nat): string
    decreases |ms|
  {
    if ms == [] then (if from <= |s| then s[from..] else "")
    else if from <= ms[0].start <= ms[0].end <= |s| then
      s[from..ms[0].start] + rep(ms[0]) + SubFrom(s, ms[1..], rep, ms[0].end)
    else SubFrom(s, ms[1..], rep, from)
  }

  function Sub(s: string, ms: seq<Match>, rep: Match -> string): string {
    SubFrom(s, ms, rep, 0)
  }

  /** `sub` with a constant replacement text. */
  function SubConst(s: string, ms: seq<Match>, rep: string): string {
    Sub(s, ms, _ => rep)
  }

  /** `regex.sub(pattern, "", s)`: every match deleted. */
  function RemoveAll(at: MatchAt, s: string): string {
    SubConst(s, FindIter(at, s), "")
  }

  /** The text of a match holds only characters of the searched text. */
  lemma TextChars(s: string, m: Match, c: char)
    requires c in Text(s, m)
    ensures c in s
  {
  }

  /** With no match, `sub` returns its input. */
  lemma SubNothing(s: string, rep: Match -> string)
    ensures Sub(s, [], rep) == s
  {
  }

  /**
    * Replacing every match by its own text gives the input back, so `sub`
    * changes exactly the matched spans.
    */
  lemma {:induction false} SubIdentity(s: string, ms: seq<Match>, from: nat)
    requires from <= |s|
    ensures SubFrom(s, ms, m => Text(s, m), from) == s[from..]
    decreases |ms|
  {
    if ms != [] {
      SubIdentity(s, ms[1..], if from <= ms[0].start <= ms[0].end <= |s| then ms[0].end else from);
      if from <= ms[0].start <= ms[0].end <= |s| {
        assert s[from..] == s[from..ms[0].start] + s[ms[0].start..ms[0].end] + s[ms[0].end..];
      }
    }
  }

  /**
    * A character that is neither in `s` nor in any replacement text is not in
    * the result of `sub` either.
    */
  lemma {:induction false} SubKeepsAbsent(s: string, ms: seq<Match>, rep: Match -> string, from: nat, c: char)
    requires c !in s
    requires forall m :: m in ms ==> c !in rep(m)
    ensures c !in SubFrom(s, ms, rep, from)
    decreases |ms|
  {
    if ms != [] {
      assert ms[0] in ms;
      assert forall m :: m in ms[1..] ==> m in ms;
      SubKeepsAbsent(s, ms[1..], rep, if from <= ms[0].start <= ms[0].end <= |s| then ms[0].end else from, c);
      if from <= ms[0].start <= ms[0].end <= |s| {
        assert forall x :: x in s[from..ms[0].start] ==> x in s;
      }
    } else if from <= |s| {
      assert forall x :: x in s[from..] ==> x in s;
    }
  }

  /** Deleting matches brings in no character. */
  lemma RemoveAllKeepsAbsent(at: MatchAt, s: string, c: char)
    requires c !in s
    ensures c !in RemoveAll(at, s)
  {
    SubKeepsAbsent(s, FindIter(at, s), _ => "", 0, c);
  }

  /** `regex.split`: the text between consecutive matches (the pattern captures nothing). */
  function SplitFrom(s: string, ms: seq<Match>, from: nat): (r: seq<string>)
    requires Ordered(s, ms, from)
    requires from <= |s|
    ensures |r| == |ms| + 1
    decreases |ms|
  {
    if ms == [] then [s[from..]]
    else [s[from..ms[0].start]] + SplitFrom(s, ms[1..], ms[0].end)
  }

  function SplitBy(s: string, ms: seq<Match>): (r: seq<string>)
    requires Ordered(s, ms, 0)
    ensures |r| == |ms| + 1
  {
    SplitFrom(s, ms, 0)
  }
}
