/**
  * The patterns of the pipeline that have a concrete model: the balanced
  * `{…}`/`[…]` group, which the source writes as a recursive regular
  * expression and which is a depth-counting scanner here; the
  * `\name{…}` content patterns built on it; math mode `$…$`; whitespace
  * runs; the author separators; and the ORCID and measurement shapes.
  */
module RegExp {
  import opened PyStr
  import opened Regex

  // ----------------------------------------------------------------------
  // Balanced groups
  // ----------------------------------------------------------------------

  /** How one character changes the nesting depth. */
  function Delta(c: char, open: char, close: char): int {
    if c == open then 1 else if c == close then -1 else 0
  }

  /** Opening minus closing characters of `t`. */
  function Depth(t: string, open: char, close: char): int {
    if t == [] then 0 else Delta(t[0], open, close) + Depth(t[1..], open, close)
  }

  lemma DepthStep(s: string, j: nat, k: nat, open: char, close: char)
    requires j < k <= |s|
    ensures Depth(s[j..k], open, close) == Delta(s[j], open, close) + Depth(s[j + 1..k], open, close)
  {
    assert s[j..k][1..] == s[j + 1..k];
  }

  /**
    * A balanced group: it opens with `open`, its depth is positive on every
    * proper non-empty prefix and zero on the whole text.
    */
  predicate IsGroup(t: string, open: char, close: char) {
    |t| >= 2 && t[0] == open && Depth(t, open, close) == 0
    && forall k :: 0 < k < |t| ==> Depth(t[..k], open, close) > 0
  }

  /**
    * Scanning from `j` with `d` groups still open: the position just after
    * the character that closes the outermost one, if the text has it.
    */
  function CloseFrom(s: string, j: nat, d: nat, open: char, close: char): (r: Option<nat>)
    requires d >= 1
    ensures r.Some? ==> j < r.value <= |s|
    decreases |s| - j
  {
    if j >= |s| then None
    else if s[j] == open then CloseFrom(s, j + 1, d + 1, open, close)
    else if s[j] == close then (if d == 1 then Some(j + 1) else CloseFrom(s, j + 1, d - 1, open, close))
    else CloseFrom(s, j + 1, d, open, close)
  }

  lemma {:induction false} CloseFromSpec(s: string, j: nat, d: nat, open: char, close: char)
    requires d >= 1 && j <= |s| && open != close
    ensures CloseFrom(s, j, d, open, close).Some? ==>
      var e := CloseFrom(s, j, d, open, close).value;
      j < e <= |s| && d + Depth(s[j..e], open, close) == 0
      && forall k :: j <= k < e ==> d + Depth(s[j..k], open, close) > 0
    ensures CloseFrom(s, j, d, open, close).None? ==>
      forall k :: j <= k <= |s| ==> d + Depth(s[j..k], open, close) > 0
    decreases |s| - j
  {
    if j < |s| {
      var d' := d + Delta(s[j], open, close);
      forall k | j < k <= |s| ensures Depth(s[j..k], open, close) == Delta(s[j], open, close) + Depth(s[j + 1..k], open, close) {
        DepthStep(s, j, k, open, close);
      }
      assert Depth(s[j..j], open, close) == 0;
      if d' >= 1 {
        CloseFromSpec(s, j + 1, d', open, close);
      } else {
        assert Depth(s[j..j + 1], open, close) == -1 by { DepthStep(s, j, j + 1, open, close); }
      }
    } else {
      assert Depth(s[j..j], open, close) == 0;
    }
  }

  /** The end of the balanced group that opens at `i`, if there is one. */
  function GroupAt(s: string, i: nat, open: char, close: char): (r: Option<nat>)
    ensures r.Some? ==> i + 2 <= r.value <= |s|
  {
    if i < |s| && s[i] == open then CloseFrom(s, i + 1, 1, open, close) else None
  }

  /**
    * The scanner finds exactly the balanced groups: what it returns is one,
    * and any balanced group opening at `i` is what it returns. In
    * particular it ends at the brace that balances the opening one, so
    * `{a{b}c}` is matched whole, not as `{a{b}`.
    */
  lemma GroupAtSpec(s: string, i: nat, open: char, close: char)
    requires open != close
    ensures GroupAt(s, i, open, close).Some? ==>
      var e := GroupAt(s, i, open, close).value;
      i < e <= |s| && IsGroup(s[i..e], open, close)
    ensures forall e :: i < e <= |s| && IsGroup(s[i..e], open, close) ==> GroupAt(s, i, open, close) == Some(e)
  {
    if i < |s| && s[i] == open {
      CloseFromSpec(s, i + 1, 1, open, close);
      forall k | i < k <= |s| ensures Depth(s[i..k], open, close) == 1 + Depth(s[i + 1..k], open, close) {
        DepthStep(s, i, k, open, close);
      }
      var r := GroupAt(s, i, open, close);
      if r.Some? {
        var e := r.value;
        forall k' | 0 < k' < e - i ensures Depth(s[i..e][..k'], open, close) > 0 {
          assert s[i..e][..k'] == s[i..i + k'];
        }
      }
      forall e | i < e <= |s| && IsGroup(s[i..e], open, close) ensures r == Some(e) {
        forall k | i + 1 <= k < e ensures Depth(s[i..k], open, close) > 0 {
          assert s[i..e][..k - i] == s[i..k];
        }
        assert 1 + Depth(s[i + 1..e], open, close) == 0;
      }
    }
  }

  /** `{a{b}c}` is one group: the inner `}` does not end it. */
  lemma NestedExample()
    ensures GroupAt("{a{b}c}", 0, '{', '}') == Some(7)
    ensures GroupAt("{a{b}", 0, '{', '}') == None
  {
    var s := "{a{b}c}";
    assert CloseFrom(s, 5, 1, '{', '}') == Some(7);
    assert CloseFrom(s, 3, 2, '{', '}') == Some(7);
    assert CloseFrom(s, 1, 1, '{', '}') == Some(7);
    var t := "{a{b}";
    assert CloseFrom(t, 3, 2, '{', '}') == None;
    assert CloseFrom(t, 1, 1, '{', '}') == None;
  }

  /** `NESTED_CONTENT_IN_CURLY`: a balanced `{…}` group. */
  function CurlyGroupAt(s: string, i: nat): Option<Match> {
    match GroupAt(s, i, '{', '}')
    case Some(e) => Some(Match(i, e, "", ""))
    case None => None
  }

  const NestedContentInCurly: MatchAt := (s: string, i: nat) => CurlyGroupAt(s, i)

  /**
    * `NESTED_CONTENT_IN_BRACKETS` as compiled: the source compiles it from
    * the curly-brace pattern, so it matches `{…}` and never `[…]`. Only the
    * `_STR` form (used by the `\affmark`/`\footnotemark` patterns) matches
    * balanced `[…]`.
    */
  const NestedContentInBracketsCompiled: MatchAt := (s: string, i: nat) => CurlyGroupAt(s, i)

  lemma BracketsCompiledIsCurly(s: string, i: nat)
    ensures NestedContentInBracketsCompiled(s, i) == NestedContentInCurly(s, i)
    ensures i < |s| && s[i] == '[' ==> NestedContentInBracketsCompiled(s, i).None?
  {
  }

  // ----------------------------------------------------------------------
  // `\name{…}` content patterns
  // ----------------------------------------------------------------------

  /** `s` spells the lower-case `lit` at `i`, ignoring ASCII case. */
  predicate LitAt(s: string, i: nat, lit: string) {
    i + |lit| <= |s| && Lower(s[i..i + |lit|]) == lit
  }

  /**
    * `\\(?:n1|n2|…)(?P<cnt>group)`, case-insensitive: a backslash, the
    * first of the names (tried in order) that is followed at once by a
    * balanced group; `g1` is the group with its delimiters.
    */
  function CmdGroupAt(s: string, i: nat, names: seq<string>, open: char, close: char): (r: Option<Match>)
    requires open != close
    ensures r.Some? ==>
      && StartsHere(s, i, r.value) && s[i] == '\\'
      && IsGroup(r.value.g1, open, close) && EndsWith(s[..r.value.end], r.value.g1)
      && exists n :: n in names && LitAt(s, i + 1, n) && r.value.end == i + 1 + |n| + |r.value.g1|
    decreases |names|
  {
    if names == [] || i >= |s| || s[i] != '\\' then None
    else
      var g := i + 1 + |names[0]|;
      if LitAt(s, i + 1, names[0]) && GroupAt(s, g, open, close).Some? then
        var e := GroupAt(s, g, open, close).value;
        GroupAtSpec(s, g, open, close);
        assert s[..e][e - (e - g)..] == s[g..e];
        Some(Match(i, e, s[g..e], ""))
      else
        var r := CmdGroupAt(s, i, names[1..], open, close);
        assert r.Some? ==> exists n :: n in names[1..] && LitAt(s, i + 1, n) && r.value.end == i + 1 + |n| + |r.value.g1|;
        r
  }

  /** The pattern `\\name(?P<cnt>{…})` for a lower-case name. */
  function CmdContent(name: string): MatchAt {
    (s: string, i: nat) => CmdGroupAt(s, i, [name], '{', '}')
  }

  const AddressContent: MatchAt := CmdContent("address")
  const AffaddrContent: MatchAt := CmdContent("affaddr")
  const AffilContent: MatchAt := CmdContent("affil")
  const AffiliationContent: MatchAt := CmdContent("affiliation")
  const AlignauthorContent: MatchAt := CmdContent("alignauthor")
  const AuthorContent: MatchAt := CmdContent("author")
  const AuthornameContent: MatchAt := CmdContent("authorname")
  const CompSocItemizeContent: MatchAt := CmdContent("ieeecompsocitemizethanks")
  const FootnoteContent: MatchAt := CmdContent("footnote")
  const InstContent: MatchAt := CmdContent("inst")
  const InstitutionContent: MatchAt := CmdContent("institution")
  const NameContent: MatchAt := CmdContent("name")
  const SupContent: MatchAt := CmdContent("sup")
  const ThanksContent: MatchAt := CmdContent("thanks")
  const ThanksrefContent: MatchAt := CmdContent("thanksref")
  const TitlenoteContent: MatchAt := CmdContent("titlenote")

  /** `\\t(?:s|extsuperscript)(?P<cnt>{…})`. */
  const TextsuperscriptContent: MatchAt :=
    (s: string, i: nat) => CmdGroupAt(s, i, ["ts", "textsuperscript"], '{', '}')

  /** `\\affmark(?P<cnt>[…])` with the balanced bracket group. */
  const AffmarkContent: MatchAt := (s: string, i: nat) => CmdGroupAt(s, i, ["affmark"], '[', ']')

  /** `\\footnotemark(?P<cnt>[…])` with the balanced bracket group. */
  const FootnotemarkContent: MatchAt := (s: string, i: nat) => CmdGroupAt(s, i, ["footnotemark"], '[', ']')

  /** `\thanks{…}` is never read as the longer `\thanksref{…}`. */
  lemma ThanksNotThanksref(s: string, i: nat)
    requires LitAt(s, i + 1, "thanksref")
    ensures ThanksContent(s, i).None?
  {
    assert Lower(s[i + 1..i + 10])[6] == LowerChar(s[i + 7]) == 'r';
  }

  /** The content of a command-group match without its outer delimiters: `cnt[1:-1]`. */
  function Inner(m: Match): string {
    Slice(m.g1, 1, -1)
  }

  // ----------------------------------------------------------------------
  // Math mode
  // ----------------------------------------------------------------------

  /** `\$(?P<cnt>[^$]+)\$`: `g1` is the non-empty, `$`-free content. */
  function MathModeAt(s: string, i: nat): (r: Option<Match>)
    ensures r.Some? ==>
      && StartsHere(s, i, r.value) && r.value.end >= i + 3 && s[i] == '$' && s[r.value.end - 1] == '$'
      && r.value.g1 == s[i + 1..r.value.end - 1] && '$' !in r.value.g1
  {
    if i + 1 < |s| && s[i] == '$' && s[i + 1] != '$' then
      var j := FindFrom(s, "$", i + 1);
      if j > i + 1 then
        assert forall k :: i + 1 <= k < j ==> !OccursAt(s, "$", k);
        assert forall k :: i + 1 <= k < j ==> s[k] != '$' by {
          forall k | i + 1 <= k < j ensures s[k] != '$' { assert s[k..k + 1] == [s[k]]; assert !OccursAt(s, "$", k); }
        }
        assert s[j..j + 1] == "$";
        Some(Match(i, j + 1, s[i + 1..j], ""))
      else None
    else None
  }

  const MathModeContent: MatchAt := (s: string, i: nat) => MathModeAt(s, i)

  // ----------------------------------------------------------------------
  // Whitespace
  // ----------------------------------------------------------------------

  /** The first position at or after `j` that is not whitespace (or the end). */
  function SkipSpaces(s: string, j: nat): (k: nat)
    ensures j <= k && (k <= |s| || k == j)
    ensures forall x :: j <= x < k ==> IsSpace(s[x])
    ensures k < |s| ==> !IsSpace(s[k])
    decreases |s| - j
  {
    if j < |s| && IsSpace(s[j]) then SkipSpaces(s, j + 1) else j
  }

  /** `regex.sub(SPACE_MULTI, " ", s)`: every whitespace run becomes one space. */
  function CollapseSpaces(s: string): (r: string)
    ensures |r| <= |s|
    decreases |s|
  {
    if s == [] then []
    else if IsSpace(s[0]) then " " + CollapseSpaces(s[SkipSpaces(s, 0)..])
    else [s[0]] + CollapseSpaces(s[1..])
  }

  /** No two neighbouring whitespace characters, and every whitespace character is a space. */
  predicate SingleSpaced(s: string) {
    (forall i :: 0 <= i < |s| ==> IsSpace(s[i]) ==> s[i] == ' ')
    && (forall i :: 0 <= i < |s| - 1 ==> !(IsSpace(s[i]) && IsSpace(s[i + 1])))
  }

  /** The output starts with whitespace exactly when the input does. */
  lemma CollapseFirst(s: string)
    ensures s != [] <==> CollapseSpaces(s) != []
    ensures s != [] ==> (IsSpace(CollapseSpaces(s)[0]) <==> IsSpace(s[0]))
  {
  }

  lemma {:induction false} CollapseSpacesSingle(s: string)
    ensures SingleSpaced(CollapseSpaces(s))
    decreases |s|
  {
    if s != [] {
      if IsSpace(s[0]) {
        var k := SkipSpaces(s, 0);
        CollapseSpacesSingle(s[k..]);
        CollapseFirst(s[k..]);
        var rest := CollapseSpaces(s[k..]);
        assert CollapseSpaces(s) == " " + rest;
      } else {
        CollapseSpacesSingle(s[1..]);
        assert CollapseSpaces(s) == [s[0]] + CollapseSpaces(s[1..]);
      }
    }
  }

  /** A trimmed, single-spaced text keeps both properties under `strip`. */
  lemma StripSingleSpaced(s: string)
    requires SingleSpaced(s)
    ensures SingleSpaced(Strip(s)) && Trimmed(Strip(s))
  {
    var r := Strip(s);
    var i :| 0 <= i <= |s| - |r| && IsSliceAt(s, r, i);
    SliceSingleSpaced(s, r, i);
  }

  /** Every piece of a single-spaced text is single-spaced. */
  lemma SliceSingleSpaced(s: string, r: string, i: nat)
    requires SingleSpaced(s) && IsSliceAt(s, r, i)
    ensures SingleSpaced(r)
  {
    forall k | 0 <= k < |r| ensures r[k] == s[i + k] { }
  }

  /** Where the first `k` characters of the output hold no whitespace, they were copied from the input. */
  lemma {:induction false} CollapsePrefixUntouched(s: string, k: nat)
    requires k <= |CollapseSpaces(s)|
    ensures (forall j :: 0 <= j < k ==> !IsSpace(CollapseSpaces(s)[j])) ==> k <= |s| && CollapseSpaces(s)[..k] == s[..k]
    decreases |s|
  {
    var r := CollapseSpaces(s);
    if s != [] && k > 0 {
      if IsSpace(s[0]) {
        assert r[0] == ' ';
      } else {
        var rest := CollapseSpaces(s[1..]);
        assert r == [s[0]] + rest;
        CollapsePrefixUntouched(s[1..], k - 1);
        if forall j :: 0 <= j < k ==> !IsSpace(r[j]) {
          assert forall j :: 0 <= j < k - 1 ==> !IsSpace(rest[j]) by {
            forall j | 0 <= j < k - 1 ensures !IsSpace(rest[j]) { assert rest[j] == r[j + 1]; }
          }
          assert r[..k] == [s[0]] + rest[..k - 1];
        }
      }
    }
  }

  /** Collapsing whitespace cannot create a whitespace-free text that was not there before. */
  lemma {:induction false} CollapseKeepsAbsent(s: string, t: string)
    requires t != [] && forall j :: 0 <= j < |t| ==> !IsSpace(t[j])
    requires !Contains(s, t)
    ensures !Contains(CollapseSpaces(s), t)
    decreases |s|
  {
    if s != [] {
      if IsSpace(s[0]) {
        var k := SkipSpaces(s, 0);
        ContainsInSuffix(s, k, t);
        CollapseKeepsAbsent(s[k..], t);
        CollapseSpaceHead(s, t);
      } else {
        ContainsInSuffix(s, 1, t);
        CollapseKeepsAbsent(s[1..], t);
        CollapseCharHead(s, t);
      }
    }
  }

  /** What a suffix contains, the whole text contains. */
  lemma ContainsInSuffix(s: string, k: nat, t: string)
    requires k <= |s|
    ensures Contains(s[k..], t) ==> Contains(s, t)
  {
    if Contains(s[k..], t) {
      var p :| 0 <= p <= |s[k..]| - |t| && OccursAt(s[k..], t, p);
      assert s[k..][p..p + |t|] == s[k + p..k + p + |t|];
      assert OccursAt(s, t, k + p);
    }
  }

  /** A leading whitespace run becomes one space, before which nothing whitespace-free can start. */
  lemma CollapseSpaceHead(s: string, t: string)
    requires s != [] && IsSpace(s[0])
    requires t != [] && forall j :: 0 <= j < |t| ==> !IsSpace(t[j])
    requires !Contains(CollapseSpaces(s[SkipSpaces(s, 0)..]), t)
    ensures !Contains(CollapseSpaces(s), t)
  {
    var rest := CollapseSpaces(s[SkipSpaces(s, 0)..]);
    var r := [' '] + rest;
    assert CollapseSpaces(s) == r;
    assert !OccursAt(r, t, 0) by {
      assert !IsSpace(t[0]);
      if |t| <= |r| { assert r[0..|t|][0] == ' '; }
    }
    ConsAbsent(' ', rest, t);
  }

  /** What occurs in `[x] + rest` occurs at its front or in `rest`. */
  lemma ConsAbsent(x: char, rest: string, t: string)
    requires t != [] && !OccursAt([x] + rest, t, 0) && !Contains(rest, t)
    ensures !Contains([x] + rest, t)
  {
    var r := [x] + rest;
    forall p | 0 <= p <= |r| - |t| ensures !OccursAt(r, t, p) {
      if p > 0 {
        assert r[p..p + |t|] == rest[p - 1..p - 1 + |t|];
        assert !OccursAt(rest, t, p - 1);
      }
    }
  }

  /** A leading non-space character is copied; a match at the front would have been in the input. */
  lemma CollapseCharHead(s: string, t: string)
    requires s != [] && !IsSpace(s[0])
    requires t != [] && forall j :: 0 <= j < |t| ==> !IsSpace(t[j])
    requires !Contains(s, t)
    requires !Contains(CollapseSpaces(s[1..]), t)
    ensures !Contains(CollapseSpaces(s), t)
  {
    var r := CollapseSpaces(s);
    var rest := CollapseSpaces(s[1..]);
    assert r == [s[0]] + rest;
    if OccursAt(r, t, 0) {
      CollapseFrontCopied(s, t);
      assert false;
    }
    ConsAbsent(s[0], rest, t);
  }

  /** A whitespace-free text at the front of the output after a non-space character was at the front of the input. */
  lemma CollapseFrontCopied(s: string, t: string)
    requires s != [] && !IsSpace(s[0])
    requires t != [] && forall j :: 0 <= j < |t| ==> !IsSpace(t[j])
    requires OccursAt(CollapseSpaces(s), t, 0)
    ensures OccursAt(s, t, 0)
  {
    var rest := CollapseSpaces(s[1..]);
    assert CollapseSpaces(s) == [s[0]] + rest;
    ConsFront(s[0], rest, t);
    CollapsePrefixUntouched(s[1..], |t| - 1);
    assert s == [s[0]] + s[1..];
    ConsCopied(s[0], s[1..], rest, t);
  }

  /** A text at the front of `[x] + rest` is `x` followed by whitespace-free front characters of `rest`. */
  lemma ConsFront(x: char, rest: string, t: string)
    requires t != [] && (forall j :: 0 <= j < |t| ==> !IsSpace(t[j])) && OccursAt([x] + rest, t, 0)
    ensures |t| - 1 <= |rest| && forall j :: 0 <= j < |t| - 1 ==> !IsSpace(rest[j])
  {
    var r := [x] + rest;
    forall j | 0 <= j < |t| - 1 ensures !IsSpace(rest[j]) { assert rest[j] == r[j + 1] == t[j + 1]; }
  }

  /** Two texts agreeing on the front characters a match needs hold it at the front alike. */
  lemma ConsCopied(x: char, a: string, rest: string, t: string)
    requires t != [] && OccursAt([x] + rest, t, 0)
    requires |t| - 1 <= |a| && a[..|t| - 1] == rest[..|t| - 1]
    ensures OccursAt([x] + a, t, 0)
  {
    assert ([x] + rest)[..|t|] == [x] + rest[..|t| - 1];
    assert ([x] + a)[..|t|] == [x] + a[..|t| - 1];
  }

  // ----------------------------------------------------------------------
  // Separators
  // ----------------------------------------------------------------------

  /** `\\(?:and|qq?uad|cdot)\s*`, case-insensitive. */
  function SepCmdAt(s: string, i: nat): (r: Option<Match>)
    ensures r.Some? ==> StartsHere(s, i, r.value) && s[i] == '\\'
  {
    if i < |s| && s[i] == '\\' then
      var n := if LitAt(s, i + 1, "and") then 3
               else if LitAt(s, i + 1, "qquad") then 5
               else if LitAt(s, i + 1, "quad") then 4
               else if LitAt(s, i + 1, "cdot") then 4
               else 0;
      if n == 0 then None else Some(Match(i, SkipSpaces(s, i + 1 + n), "", ""))
    else None
  }

  const LatexSeparatorsCmdsOnly: MatchAt := (s: string, i: nat) => SepCmdAt(s, i)

  /**
    * `LATEX_SEPARATORS`, case-insensitive: a separator command with its
    * trailing whitespace, a comma, or `and` with one whitespace character on
    * each side, tried in that order.
    */
  function SeparatorAt(s: string, i: nat): (r: Option<Match>)
    ensures r.Some? ==> StartsHere(s, i, r.value)
  {
    if SepCmdAt(s, i).Some? then SepCmdAt(s, i)
    else if i < |s| && s[i] == ',' then Some(Match(i, i + 1, "", ""))
    else if i + 5 <= |s| && IsSpace(s[i]) && LitAt(s, i + 1, "and") && IsSpace(s[i + 4]) then Some(Match(i, i + 5, "", ""))
    else None
  }

  const LatexSeparators: MatchAt := (s: string, i: nat) => SeparatorAt(s, i)

  /** A separator is one of the three forms, and nothing else. */
  lemma SeparatorForms(s: string, i: nat)
    requires SeparatorAt(s, i).Some?
    ensures var t := s[i..SeparatorAt(s, i).value.end];
      (t[0] == '\\' && (LitAt(s, i + 1, "and") || LitAt(s, i + 1, "quad") || LitAt(s, i + 1, "qquad") || LitAt(s, i + 1, "cdot")))
      || t == ","
      || (|t| == 5 && IsSpace(t[0]) && Lower(t[1..4]) == "and" && IsSpace(t[4]))
  {
    var e := SeparatorAt(s, i).value.end;
    if SepCmdAt(s, i).None? && !(i < |s| && s[i] == ',') {
      assert s[i..e][1..4] == s[i + 1..i + 4];
    }
  }

  /** `split_on_separator`: the non-empty, stripped pieces between separators, in order. */
  function SplitOnSeparator(text: string): (r: seq<string>)
    ensures forall p :: p in r ==> p != "" && Trimmed(p)
  {
    NonEmptyStripped(SplitBy(text, FindIter(LatexSeparators, text)))
  }

  // ----------------------------------------------------------------------
  // Shapes
  // ----------------------------------------------------------------------

  /** `-` or U+2212 MINUS SIGN. */
  predicate IsHyphen(c: char) { c == '-' || c == '\U{2212}' }

  /**
    * `[0-9]{4}(?:[−-][0-9]{4}){2}[−-][0-9]{3}[0-9X]` as used by the
    * case-insensitive ORCID patterns: four groups of four characters, the
    * last character a digit, `X` or `x`. The ISO 7064 MOD 11-2 check
    * character is not verified.
    */
  predicate IsOrcidId(t: string) {
    |t| == 19
    && (forall k :: 0 <= k < 18 && k % 5 != 4 ==> IsDigitChar(t[k]))
    && IsHyphen(t[4]) && IsHyphen(t[9]) && IsHyphen(t[14])
    && (IsDigitChar(t[18]) || t[18] == 'X' || t[18] == 'x')
  }

  lemma OrcidExamples()
    ensures IsOrcidId("0000-0002-1825-0097")
    ensures IsOrcidId("0000-0002-1694-233X")
    ensures !IsOrcidId("0000-0002-1825-009")
  {
    var a := "0000-0002-1825-0097";
    assert forall k :: 0 <= k < 18 && k % 5 != 4 ==> IsDigitChar(a[k]);
    var b := "0000-0002-1694-233X";
    assert forall k :: 0 <= k < 18 && k % 5 != 4 ==> IsDigitChar(b[k]);
  }

  /** The 14 TeX units of `LATEX_MEASUREMENTS`, lower case. */
  const Units: seq<string> := ["pt", "mm", "cm", "in", "ex", "em", "mu", "sp", "bp", "pc", "dd", "cc", "nd", "nc"]

  predicate AllDigits(t: string) { forall k :: 0 <= k < |t| ==> IsDigitChar(t[k]) }

  /** `(?:[0-9]+)?\.?[0-9]+`: digits, or optional digits, a dot and digits. */
  predicate IsDecimal(t: string) {
    (|t| > 0 && AllDigits(t))
    || exists k :: 0 <= k < |t| - 1 && t[k] == '.' && AllDigits(t[..k]) && AllDigits(t[k + 1..])
  }

  /**
    * `\[-?(?:[0-9]+)?\.?[0-9]+(?:pt|mm|…|nc)\]`, case-insensitive: `[`, an
    * optionally negative decimal, one of the 14 units, `]`.
    */
  predicate IsMeasurement(t: string) {
    |t| >= 4 && t[0] == '[' && t[|t| - 1] == ']'
    && Lower(t[|t| - 3..|t| - 1]) in Units
    && var num := t[1..|t| - 3];
       (IsDecimal(num) || (|num| > 0 && num[0] == '-' && IsDecimal(num[1..])))
  }

  lemma MeasurementExamples()
    ensures IsMeasurement("[12pt]") && IsMeasurement("[-.5EM]")
    ensures !IsMeasurement("[pt]") && !IsMeasurement("[1.pt]")
  {
    assert "[12pt]"[1..3] == "12" && "[12pt]"[3..5] == "pt";
    assert Lower("pt") == "pt";
    assert "[-.5EM]"[4..6] == "EM";
    assert "[-.5EM]"[1..4][1..] == ".5";
    assert ".5"[..0] == "" && ".5"[1..] == "5";
    assert Lower("EM") == "em";
    assert "[1.pt]"[1..3] == "1.";
    assert "1."[0] != '.' && !AllDigits("1.") by { assert "1."[1] == '.'; }
    assert "1."[0] != '-';
  }

  /**
    * `LATEX_MEASUREMENTS` tried at `i`: no measurement contains `]` before
    * its end, so the candidate ends at the first `]`.
    */
  function MeasurementAt(s: string, i: nat): (r: Option<Match>)
    ensures r.Some? ==> StartsHere(s, i, r.value) && IsMeasurement(s[i..r.value.end])
  {
    if i < |s| && s[i] == '[' then
      var j := FindFrom(s, "]", i + 1);
      if j >= 0 && IsMeasurement(s[i..j + 1]) then Some(Match(i, j + 1, "", "")) else None
    else None
  }

  const LatexMeasurements: MatchAt := (s: string, i: nat) => MeasurementAt(s, i)

  // ----------------------------------------------------------------------
  // AUTHORSHIP, AUTHORSHIP_ENV and LATEX_COMMENT_BLOCK
  // ----------------------------------------------------------------------

  /** The author commands `AUTHORSHIP` recognises. */
  const AuthorCmds: seq<string> := [
    "addauthor", "additionalauthors", "aistatsauthor", "articleauthors", "auteur", "auteurs",
    "author", "authora", "authoranon", "authorb", "authorbio", "authorblockN", "authorc",
    "authord", "authore", "authorinfo", "authorlist", "authorname", "authors", "authorsn",
    "author*", "authoreightname", "authorfivename", "authorfourname", "authorninename",
    "authoronename", "authorsevenname", "authorsixname", "authortenname", "authorthreename",
    "authortwoname", "firstauthorname", "secondauthorname", "thirdauthorname", "fourthauthorname",
    "hpcaauthors", "icmlauthor", "ieeeauthorblockn", "longauthor", "maintitleauthorlist",
    "midlauthor", "mlsysauthor", "name", "neutrAuthorListBib", "oneauthor", "rrauthor", "sauthor",
    "setauthor", "setauthors", "sysmlauthor", "thanks", "thesisauthor", "trauthor", "twoauthors"]

  /** The affiliation commands `AUTHORSHIP` recognises. */
  const AffiliationCmds: seq<string> := [
    "address", "additionalaffiliation", "affa", "affaddr", "affgrous", "affb", "affc", "affd",
    "affe", "affil", "affiliate", "affilOne", "affiliation", "affiliationa", "affiliationb",
    "affiliationc", "affiliations", "affrdc", "affzack", "aistatsaddress", "authoraaddr",
    "authoraddr", "authoraffiliation", "authorbaddr", "authorblockA", "authorcaddr", "authordaddr",
    "authoreaddr", "authoreightaffil", "authorfiveaffil", "authorfouraffil", "authornineaffil",
    "authoroneaffil", "authorsevenaffil", "authorsixaffil", "authortenaffil", "authorthreeaffil",
    "authortwoaffil", "hpcaaffiliation", "icmlaffiliation", "icmladdress", "ieeeauthorblocka",
    "inst", "institute", "institutes", "institution", "institutions", "longaddress", "lyxaddress",
    "mlsysaffiliation", "neutrAddress", "neutrDepartment", "neutrInstitution", "publishers",
    "setaffiliation", "sysmlaffiliation", "thesislocation", "trgroup"]

  const AuthorshipCmds: seq<string> := AuthorCmds + AffiliationCmds

  /** The start of the whitespace run that ends just before `i`. */
  function SpacesBackFrom(s: string, i: nat): (j: nat)
    requires i <= |s|
    ensures j <= i && (forall x :: j <= x < i ==> IsSpace(s[x])) && (j > 0 ==> !IsSpace(s[j - 1]))
  {
    if i > 0 && IsSpace(s[i - 1]) then SpacesBackFrom(s, i - 1) else i
  }

  /** `s[..j]` ends with the lower-case `lit`, ignoring ASCII case. */
  predicate EndsWithCI(s: string, j: nat, lit: string)
    requires j <= |s|
  {
    |lit| <= j && LitAt(s, j - |lit|, lit)
  }

  /** A definition keyword ends at `j`. */
  predicate DefinitionEndsAt(s: string, j: nat)
    requires j <= |s|
  {
    EndsWithCI(s, j, "\\newcommand") || EndsWithCI(s, j, "\\renewcommand") || EndsWithCI(s, j, "\\def")
  }

  /**
    * The negative lookbehind `(?<!\\(?:(?:re)?newcommand|def)\s*)`: it is
    * enough to look in front of the whole whitespace run before `i`.
    */
  predicate AfterDefinition(s: string, i: nat)
    requires i <= |s|
  {
    DefinitionEndsAt(s, SpacesBackFrom(s, i))
  }

  /** The lookbehind holds exactly when some whitespace-only gap separates `i` from a definition keyword. */
  lemma AfterDefinitionSpec(s: string, i: nat)
    requires i <= |s|
    ensures AfterDefinition(s, i) <==>
      exists j :: 0 <= j <= i && (forall x :: j <= x < i ==> IsSpace(s[x])) && DefinitionEndsAt(s, j)
  {
    var j0 := SpacesBackFrom(s, i);
    forall j | 0 <= j <= i && (forall x :: j <= x < i ==> IsSpace(s[x])) && DefinitionEndsAt(s, j)
      ensures j == j0
    {
      DefinitionEndsNotSpace(s, j);
    }
  }

  /** Every definition keyword ends in a letter, not in whitespace. */
  lemma DefinitionEndsNotSpace(s: string, j: nat)
    requires j <= |s| && DefinitionEndsAt(s, j)
    ensures j > 0 && !IsSpace(s[j - 1])
  {
    if EndsWithCI(s, j, "\\newcommand") {
      assert Lower(s[j - 11..j])[10] == LowerChar(s[j - 1]) == 'd';
    } else if EndsWithCI(s, j, "\\renewcommand") {
      assert Lower(s[j - 13..j])[12] == LowerChar(s[j - 1]) == 'd';
    } else {
      assert Lower(s[j - 4..j])[3] == LowerChar(s[j - 1]) == 'f';
    }
  }

  /** Consecutive balanced `[…]` groups from `j` on. */
  function SkipBracketGroups(s: string, j: nat): (k: nat)
    requires j <= |s|
    ensures j <= k <= |s| && GroupAt(s, k, '[', ']').None?
    decreases |s| - j
  {
    match GroupAt(s, j, '[', ']')
    case Some(e) => SkipBracketGroups(s, e)
    case None => j
  }

  /** `s[a..b]` is a (possibly empty) run of balanced `[…]` groups with nothing between them. */
  predicate BracketRun(s: string, a: nat, b: nat)
    decreases b - a
  {
    a == b || (a < b && GroupAt(s, a, '[', ']').Some? && GroupAt(s, a, '[', ']').value <= b
               && BracketRun(s, GroupAt(s, a, '[', ']').value, b))
  }

  lemma {:induction false} SkipBracketGroupsRun(s: string, j: nat)
    requires j <= |s|
    ensures BracketRun(s, j, SkipBracketGroups(s, j))
    decreases |s| - j
  {
    match GroupAt(s, j, '[', ']')
    case Some(e) => SkipBracketGroupsRun(s, e);
    case None =>
  }

  /** Positions of the parts of an `AUTHORSHIP` match after the command name. */
  datatype CmdShape = CmdShape(opts: nat, optsEnd: nat, arg: nat, arg1: nat, arg2: nat, arg3: nat)

  predicate AllSpaces(s: string, a: nat, b: nat)
    requires a <= b <= |s|
  {
    forall x :: a <= x < b ==> IsSpace(s[x])
  }

  /**
    * The parts after the name at `j`: an optional `*`, whitespace, a run of
    * bracket groups, whitespace, one brace group and up to two more brace
    * groups directly after it, each taken whenever it is there.
    */
  predicate ShapeOk(s: string, j: nat, sh: CmdShape) {
    j <= sh.opts <= sh.optsEnd <= sh.arg < sh.arg1 <= sh.arg2 <= sh.arg3 <= |s|
    && (sh.opts == j || (j < |s| && s[j] == '*' && AllSpaces(s, j + 1, sh.opts)) || AllSpaces(s, j, sh.opts))
    && BracketRun(s, sh.opts, sh.optsEnd) && AllSpaces(s, sh.optsEnd, sh.arg)
    && IsGroup(s[sh.arg..sh.arg1], '{', '}')
    && (if GroupAt(s, sh.arg1, '{', '}').Some? then IsGroup(s[sh.arg1..sh.arg2], '{', '}') else sh.arg2 == sh.arg1)
    && (if GroupAt(s, sh.arg2, '{', '}').Some? then IsGroup(s[sh.arg2..sh.arg3], '{', '}') else sh.arg3 == sh.arg2)
  }

  /** The longest optional brace group at `k`, or `k` itself. */
  function OptGroup(s: string, k: nat): (e: nat)
    requires k <= |s|
    ensures k <= e <= |s|
  {
    match GroupAt(s, k, '{', '}')
    case Some(e) => e
    case None => k
  }

  function AuthorshipTail(s: string, j: nat): Option<CmdShape>
    requires j <= |s|
  {
    var a := if j < |s| && s[j] == '*' then j + 1 else j;
    var o := SkipSpaces(s, a);
    var b := SkipBracketGroups(s, o);
    var c := SkipSpaces(s, b);
    match GroupAt(s, c, '{', '}')
    case None => None
    case Some(e1) =>
      var e2 := OptGroup(s, e1);
      Some(CmdShape(o, b, c, e1, e2, OptGroup(s, e2)))
  }

  lemma AuthorshipTailShape(s: string, j: nat)
    requires j <= |s|
    ensures AuthorshipTail(s, j).Some? ==> ShapeOk(s, j, AuthorshipTail(s, j).value)
  {
    var a := if j < |s| && s[j] == '*' then j + 1 else j;
    var o := SkipSpaces(s, a);
    var b := SkipBracketGroups(s, o);
    var c := SkipSpaces(s, b);
    SkipBracketGroupsRun(s, o);
    GroupAtSpec(s, c, '{', '}');
    if GroupAt(s, c, '{', '}').Some? {
      var e1 := GroupAt(s, c, '{', '}').value;
      GroupAtSpec(s, e1, '{', '}');
      GroupAtSpec(s, OptGroup(s, e1), '{', '}');
    }
  }

  /** The first name of `names` (compared case-insensitively) after which the rest of the pattern matches. */
  function AuthorshipName(s: string, i: nat, names: seq<string>): (r: Option<string>)
    ensures r.Some? ==> r.value in names && NameFits(s, i, r.value)
    decreases |names|
  {
    if names == [] then None
    else if NameFits(s, i, names[0]) then Some(names[0])
    else AuthorshipName(s, i, names[1..])
  }

  /** The command name `n` is spelled after the backslash at `i` and the rest of the pattern matches after it. */
  predicate NameFits(s: string, i: nat, n: string) {
    LitAt(s, i + 1, Lower(n)) && AuthorshipTail(s, i + 1 + |n|).Some?
  }

  /**
    * `AUTHORSHIP` tried at `i` with the command names `names`: not after a
    * definition keyword, a backslash, the first name that fits, and the
    * shape above.
    */
  function AuthorshipIn(names: seq<string>, s: string, i: nat): (r: Option<Match>)
    ensures r.Some? ==> StartsHere(s, i, r.value) && s[i] == '\\' && !AfterDefinition(s, i)
  {
    if i < |s| && s[i] == '\\' && !AfterDefinition(s, i) then
      match AuthorshipName(s, i, names)
      case Some(n) => Some(Match(i, TailEnd(s, i, n), "", ""))
      case None => None
    else None
  }

  /** After a fitting name the rest of the pattern is there. */
  lemma AuthorshipWitness(s: string, i: nat, n: string)
    requires NameFits(s, i, n)
    ensures i + 1 + |n| <= |s| && AuthorshipTail(s, i + 1 + |n|).Some?
  {
  }

  /** Where the match of the fitting name `n` ends: after the last brace group. */
  function TailEnd(s: string, i: nat, n: string): (e: nat)
    requires NameFits(s, i, n)
    ensures i < e <= |s|
  {
    AuthorshipWitness(s, i, n);
    AuthorshipTailShape(s, i + 1 + |n|);
    AuthorshipTail(s, i + 1 + |n|).value.arg3
  }

  /** A match is one of the names, spelled after the backslash, followed by the shape above, to its end. */
  lemma AuthorshipShape(names: seq<string>, s: string, i: nat)
    requires AuthorshipIn(names, s, i).Some?
    ensures exists n, sh ::
      && n in names && LitAt(s, i + 1, Lower(n)) && ShapeOk(s, i + 1 + |n|, sh)
      && AuthorshipIn(names, s, i).value.end == sh.arg3
  {
    var n := AuthorshipInName(names, s, i);
    var sh := TailEndShape(s, i, n);
  }

  /** A match ends where the tail after its fitting name ends. */
  lemma AuthorshipInName(names: seq<string>, s: string, i: nat) returns (n: string)
    requires AuthorshipIn(names, s, i).Some?
    ensures n in names && NameFits(s, i, n) && AuthorshipIn(names, s, i).value.end == TailEnd(s, i, n)
  {
    n := AuthorshipName(s, i, names).value;
  }

  /** The tail after a fitting name has the shape above and ends the match. */
  lemma TailEndShape(s: string, i: nat, n: string) returns (sh: CmdShape)
    requires NameFits(s, i, n)
    ensures LitAt(s, i + 1, Lower(n)) && ShapeOk(s, i + 1 + |n|, sh) && TailEnd(s, i, n) == sh.arg3
  {
    AuthorshipWitness(s, i, n);
    var j := i + 1 + |n|;
    sh := AuthorshipTail(s, j).value;
    TailShapeOk(s, j, sh);
  }

  lemma TailShapeOk(s: string, j: nat, sh: CmdShape)
    requires j <= |s| && AuthorshipTail(s, j) == Some(sh)
    ensures ShapeOk(s, j, sh)
  {
    AuthorshipTailShape(s, j);
  }

  /** `AUTHORSHIP`: the author and affiliation commands it recognises. */
  const Authorship: MatchAt := (s: string, i: nat) => AuthorshipIn(AuthorshipCmds, s, i)

  /** A command definition is never an `AUTHORSHIP` match. */
  lemma AuthorshipSkipsDefinitions(names: seq<string>, s: string, i: nat)
    requires i <= |s| && AfterDefinition(s, i)
    ensures AuthorshipIn(names, s, i).None?
  {
  }

  /** After `\author`, `{A}{B}{C}{D}` yields three brace groups: a fourth is not part of the match. */
  lemma AuthorshipTailExample()
    ensures AuthorshipTail("\\author{A}{B}{C}{D}", 7) == Some(CmdShape(7, 7, 7, 10, 13, 16))
  {
    var s := "\\author{A}{B}{C}{D}";
    assert s[7] == '{' && s[8] == 'A' && s[9] == '}';
    assert s[10] == '{' && s[11] == 'B' && s[12] == '}';
    assert s[13] == '{' && s[14] == 'C' && s[15] == '}';
    ThreeGroupsTail(s, 7);
  }

  /** Three one-character brace groups at `j`: the tail takes all three and no space or option before them. */
  lemma ThreeGroupsTail(s: string, j: nat)
    requires j + 9 <= |s|
    requires OneCharGroup(s, j) && OneCharGroup(s, j + 3) && OneCharGroup(s, j + 6)
    ensures AuthorshipTail(s, j) == Some(CmdShape(j, j, j, j + 3, j + 6, j + 9))
  {
    OneCharGroupAt(s, j);
    OneCharGroupAt(s, j + 3);
    OneCharGroupAt(s, j + 6);
    assert !IsSpace(s[j]);
    assert SkipSpaces(s, j) == j;
    assert GroupAt(s, j, '[', ']').None?;
    assert SkipBracketGroups(s, j) == j;
  }

  predicate OneCharGroup(s: string, k: nat) {
    k + 3 <= |s| && s[k] == '{' && s[k + 1] != '{' && s[k + 1] != '}' && s[k + 2] == '}'
  }

  lemma OneCharGroupAt(s: string, k: nat)
    requires OneCharGroup(s, k)
    ensures GroupAt(s, k, '{', '}') == Some(k + 3)
  {
    assert CloseFrom(s, k + 2, 1, '{', '}') == Some(k + 3);
  }

  /** The end of the line that `q` is on: the next `\n` at or after `q`, or the end of the text. */
  function LineEnd(s: string, q: nat): (e: nat)
    requires q <= |s|
    ensures q <= e <= |s| && (e < |s| ==> s[e] == '\n') && forall x :: q <= x < e ==> s[x] != '\n'
    decreases |s| - q
  {
    if q < |s| && s[q] != '\n' then LineEnd(s, q + 1) else q
  }

  /**
    * `.*?` followed by a closing marker, without DOTALL: the leftmost
    * position at or after `q`, and not past the end of `q`'s line, where
    * `closer` matches. `start`/`end` of the result are the marker's.
    */
  function LazyUntil(s: string, q: nat, closer: (string, nat) -> Option<nat>): (r: Option<Match>)
    requires q <= |s|
    ensures r.Some? ==>
      && q <= r.value.start <= LineEnd(s, q) && closer(s, r.value.start) == Some(r.value.end)
      && forall x :: q <= x < r.value.start ==> closer(s, x).None?
    ensures r.None? ==> forall x :: q <= x <= LineEnd(s, q) ==> closer(s, x).None?
    decreases |s| - q
  {
    match closer(s, q)
    case Some(e) => Some(Match(q, e, "", ""))
    case None => if q < |s| && s[q] != '\n' then LazyUntil(s, q + 1, closer) else None
  }

  /** `mdxauthorend{}` or `end{author}`, case-insensitive. */
  function EnvCloserAt(s: string, k: nat): Option<nat> {
    if LitAt(s, k, "mdxauthorend{}") then Some(k + 14)
    else if LitAt(s, k, "end{author}") then Some(k + 11)
    else None
  }

  /**
    * `AUTHORSHIP_ENV` tried at `i`: outside a definition, `\mdxauthorstart{}`
    * or `\begin{author}`, whitespace, then everything up to the first closing
    * marker on the same line.
    */
  function AuthorshipEnvAt(s: string, i: nat): (r: Option<Match>)
    ensures r.Some? ==> StartsHere(s, i, r.value) && s[i] == '\\' && !AfterDefinition(s, i)
  {
    if i < |s| && s[i] == '\\' && !AfterDefinition(s, i) then
      var o := if LitAt(s, i + 1, "mdxauthorstart{}") then i + 17
               else if LitAt(s, i + 1, "begin{author}") then i + 14
               else 0;
      if o == 0 then None
      else
        match LazyUntil(s, SkipSpaces(s, o), (t: string, k: nat) => EnvCloserAt(t, k))
        case Some(m) => Some(Match(i, m.end, "", ""))
        case None => None
    else None
  }

  const AuthorshipEnv: MatchAt := (s: string, i: nat) => AuthorshipEnvAt(s, i)

  /** `\\kw\s*\{\s*comment\s*\}`, case-insensitive, for `kw` in `begin`/`end`. */
  function CommentMarkerAt(s: string, i: nat, kw: string): Option<nat> {
    if LitAt(s, i, kw) then
      var a := SkipSpaces(s, i + |kw|);
      if a < |s| && s[a] == '{' then
        var b := SkipSpaces(s, a + 1);
        if LitAt(s, b, "comment") then
          var c := SkipSpaces(s, b + 7);
          if c < |s| && s[c] == '}' then Some(c + 1) else None
        else None
      else None
    else None
  }

  /**
    * `LATEX_COMMENT_BLOCK` tried at `i`: an opening `\begin{comment}` marker
    * and everything up to the first closing `\end{comment}` marker that
    * starts on the same line.
    */
  function CommentBlockAt(s: string, i: nat): (r: Option<Match>)
    ensures r.Some? ==> StartsHere(s, i, r.value)
  {
    match CommentMarkerAt(s, i, "\\begin")
    case None => None
    case Some(o) =>
      if o <= |s| then
        match LazyUntil(s, o, (t: string, k: nat) => CommentMarkerAt(t, k, "\\end"))
        case Some(m) => if i < m.end <= |s| then Some(Match(i, m.end, "", "")) else None
        case None => None
      else None
  }

  const LatexCommentBlock: MatchAt := (s: string, i: nat) => CommentBlockAt(s, i)

  /** A comment block whose opening line has no closing marker is not matched, whatever follows. */
  lemma CommentBlockSameLine(s: string, i: nat)
    requires CommentMarkerAt(s, i, "\\begin").Some? && CommentMarkerAt(s, i, "\\begin").value <= |s|
    requires var o := CommentMarkerAt(s, i, "\\begin").value;
      forall x :: o <= x <= LineEnd(s, o) ==> CommentMarkerAt(s, x, "\\end").None?
    ensures CommentBlockAt(s, i).None?
  {
    var o := CommentMarkerAt(s, i, "\\begin").value;
    var r := LazyUntil(s, o, (t: string, k: nat) => CommentMarkerAt(t, k, "\\end"));
  }

  // ----------------------------------------------------------------------
  // LATEX_DOCUMENTCLASS
  // ----------------------------------------------------------------------

  /**
    * `(?:\[[^]]+]\s*)*` from `j`: each option group is `[`, at least one
    * character other than `]`, then `]`, and the whitespace after it.
    */
  function SkipOptions(s: string, j: nat): (k: nat)
    requires j <= |s|
    ensures j <= k <= |s|
    decreases |s| - j
  {
    if j < |s| && s[j] == '[' then
      var e := FindFrom(s, "]", j + 1);
      if e > j + 1 then SkipOptions(s, SkipSpaces(s, e + 1)) else j
    else j
  }

  /**
    * `LATEX_DOCUMENTCLASS` tried at `i`, case-insensitive:
    * `\documentclass`, whitespace, option groups, whitespace, and the
    * balanced `{…}` group captured as `g1`.
    */
  function DocumentclassAt(s: string, i: nat): (r: Option<Match>)
    ensures r.Some? ==>
      && StartsHere(s, i, r.value) && LitAt(s, i, "\\documentclass")
      && (exists g :: i + 14 <= g && g + 2 <= r.value.end && r.value.g1 == s[g..r.value.end])
  {
    if LitAt(s, i, "\\documentclass") then
      var g := SkipSpaces(s, SkipOptions(s, SkipSpaces(s, i + 14)));
      if g <= |s| then
        match GroupAt(s, g, '{', '}')
        case Some(e) =>
          Some(Match(i, e, s[g..e], ""))
        case None => None
      else None
    else None
  }

  /** The group `\\documentclass` captures is a balanced curly group. */
  lemma DocumentclassIsGroup(s: string, i: nat)
    requires DocumentclassAt(s, i).Some?
    ensures IsGroup(DocumentclassAt(s, i).value.g1, '{', '}')
  {
    var g := SkipSpaces(s, SkipOptions(s, SkipSpaces(s, i + 14)));
    GroupAtSpec(s, g, '{', '}');
  }

  const LatexDocumentclass: MatchAt := (s: string, i: nat) => DocumentclassAt(s, i)
}
