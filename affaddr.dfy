/**
  * The `\affaddr`/`\affmark` schemes: authors written as plain text lines,
  * affiliations inside `\affaddr{…}`, optionally tied together by
  * `\affmark[…]` marks or math-mode references.
  */
module AffAddrScheme {
  import opened PyStr
  import opened Regex
  import opened RegExp
  import opened Patterns
  import opened Authors
  import opened CmdUtil
  import opened Scheme

  // ----------------------------------------------------------------------
  // Validators
  // ----------------------------------------------------------------------

  /** `AlignAuthorAffAddr.validate`. */
  predicate AlignAuthorAffAddrValid(content: string) {
    Has(content, "\\alignauthor") && Has(content, "\\affaddr")
  }

  /** `AffMarkAffAddr.validate`: every `\affaddr{…}` holds an `\affmark`, and both commands occur. */
  predicate AffMarkAffAddrValid(content: string) {
    var c := Lower(content);
    && (forall m :: m in FindIter(AffaddrContent, c) ==> Contains(Text(c, m), "\\affmark"))
    && Contains(c, "\\affmark") && Contains(c, "\\affaddr")
  }

  /** `AffMarkNoAffAddr.validate`. */
  predicate AffMarkNoAffAddrValid(content: string) {
    Has(content, "\\affmark") && !Has(content, "\\affaddr")
  }

  /** `AffAddr.validate`. */
  predicate AffAddrValid(content: string) {
    !Has(content, "\\affmark") && !Has(content, "\\alignauthor") && Has(content, "\\affaddr")
  }

  /** `AffAddrMathMode.validate`. */
  predicate AffAddrMathModeValid(content: string) {
    Has(content, "\\affaddr") && !Has(content, "\\affmark") && MathRefs(content) > 0
  }

  /**
    * `AffAddr`, `AffMarkAffAddr` and `AffMarkNoAffAddr` never accept the
    * same content; `AffAddr` also excludes `AlignAuthorAffAddr`, and
    * `AffAddrMathMode` excludes both `\affmark` schemes.
    */
  lemma ValidatorsExclusive(content: string)
    ensures !(AffAddrValid(content) && AffMarkAffAddrValid(content))
    ensures !(AffAddrValid(content) && AffMarkNoAffAddrValid(content))
    ensures !(AffMarkAffAddrValid(content) && AffMarkNoAffAddrValid(content))
    ensures !(AffAddrValid(content) && AlignAuthorAffAddrValid(content))
    ensures !(AffAddrMathModeValid(content) && (AffMarkAffAddrValid(content) || AffMarkNoAffAddrValid(content)))
  {
  }

  // ----------------------------------------------------------------------
  // AffAddr.extract and its helpers
  // ----------------------------------------------------------------------

  /** `part.lower().startswith(r"\affaddr")`. */
  predicate IsAffaddrPart(part: string) {
    StartsWith(Lower(part), "\\affaddr")
  }

  /** The names of a part that is not an `\affaddr` line. */
  function NamesOf(part: string): seq<string> {
    if IsAffaddrPart(part) then [] else SplitOnSeparator(part)
  }

  /** All names, in order, of the parts that are not `\affaddr` lines. */
  function AllNames(parts: seq<string>): seq<string> {
    FlatMap(parts, NamesOf)
  }

  /** `_has_affaddr_block`: at least three parts, and after the first part no name line follows an `\affaddr` line. */
  predicate AffaddrBlockShape(parts: seq<string>) {
    |parts| >= 3 && forall i, j :: 1 <= i < j < |parts| && IsAffaddrPart(parts[i]) ==> IsAffaddrPart(parts[j])
  }

  /** `_has_affaddr_block`, with its flag and early return. */
  method HasAffaddrBlock(parts: seq<string>) returns (r: bool)
    ensures r <==> AffaddrBlockShape(parts)
  {
    if |parts| < 3 {
      return false;
    }
    var started := false;
    var i := 1;
    while i < |parts|
      invariant 1 <= i <= |parts|
      invariant started <==> exists k :: 1 <= k < i && IsAffaddrPart(parts[k])
      invariant forall a, b :: 1 <= a < b < i && IsAffaddrPart(parts[a]) ==> IsAffaddrPart(parts[b])
    {
      if IsAffaddrPart(parts[i]) {
        started := true;
      } else if started {
        return false;
      }
      i := i + 1;
    }
    return true;
  }

  /** `part[8:].strip("{} ")`: an `\affaddr` line without the command and its braces. */
  function AffaddrText(part: string): string {
    StripChars(Slice(part, 8, |part|), {'{', '}', ' '})
  }

  function AffaddrTextOf(part: string): seq<string> {
    if IsAffaddrPart(part) then [AffaddrText(part)] else []
  }

  /** The `\affaddr` lines, in order, each without its command. */
  function AffaddrTexts(parts: seq<string>): seq<string> {
    FlatMap(parts, AffaddrTextOf)
  }

  /**
    * `_affaddr_block`: every name of every name line gets exactly one
    * affiliation, the sanitized `", "`-join of all `\affaddr` lines.
    */
  method AffaddrBlock(san: string -> string, parts: seq<string>) returns (r: seq<Author>)
    ensures |r| == |AllNames(parts)| && OneAffiliationEach(r)
    ensures forall k :: 0 <= k < |r| ==>
      r[k] == Author(san(AllNames(parts)[k]), [san(Join(AffaddrTexts(parts), ", "))])
  {
    var nameParts: seq<string> := [];
    var affiliationParts: seq<string> := [];
    var i := 0;
    while i < |parts|
      invariant 0 <= i <= |parts|
      invariant nameParts == AllNames(parts[..i])
      invariant affiliationParts == AffaddrTexts(parts[..i])
    {
      FlatMapStep(parts, NamesOf, i);
      FlatMapStep(parts, AffaddrTextOf, i);
      var part := parts[i];
      if IsAffaddrPart(part) {
        affiliationParts := affiliationParts + [AffaddrText(part)];
      } else {
        nameParts := nameParts + SplitOnSeparator(part);
      }
      i := i + 1;
    }
    assert parts[..|parts|] == parts;
    var affiliation := san(Join(affiliationParts, ", "));
    r := Shared(san, nameParts, affiliation);
    SharedAt(san, nameParts, affiliation);
  }

  /** What `_ordered` has gathered so far: pending names, their affiliations, and the authors flushed. */
  datatype Gathered = Gathered(names: seq<string>, affiliations: seq<string>, authorAffs: seq<Author>)

  /**
    * One part of `_ordered`: an `\affaddr` line adds an affiliation; a name
    * line first flushes the pending names with the pending affiliations
    * when there are both, then adds its own names.
    */
  function OrderedStep(san: string -> string, split: string -> seq<string>, g: Gathered, part: string): Gathered {
    if IsAffaddrPart(part) then
      Gathered(g.names, g.affiliations + [san(Slice(part, 8, |part|))], g.authorAffs)
    else
      var f := if |g.names| > 0 && |g.affiliations| > 0 then Gathered([], [], g.authorAffs + Group(g.names, g.affiliations)) else g;
      Gathered(f.names + SanEach(san, split(part)), f.affiliations, f.authorAffs)
  }

  function OrderedFold(san: string -> string, split: string -> seq<string>, parts: seq<string>): Gathered
    decreases |parts|
  {
    if parts == [] then Gathered([], [], [])
    else OrderedStep(san, split, OrderedFold(san, split, parts[..|parts| - 1]), parts[|parts| - 1])
  }

  /** `_ordered`: the flushed authors, then the trailing names with the pending affiliations. */
  function OrderedSpec(san: string -> string, split: string -> seq<string>, parts: seq<string>): seq<Author> {
    var g := OrderedFold(san, split, parts);
    g.authorAffs + Group(g.names, g.affiliations)
  }

  lemma OrderedFoldStep(san: string -> string, split: string -> seq<string>, parts: seq<string>, i: nat)
    requires i < |parts|
    ensures OrderedFold(san, split, parts[..i + 1]) == OrderedStep(san, split, OrderedFold(san, split, parts[..i]), parts[i])
  {
    assert parts[..i + 1][..i] == parts[..i];
  }

  /** `_ordered`, with its accumulators and the nested flush loop. */
  method Ordered(san: string -> string, split: string -> seq<string>, parts: seq<string>) returns (authorAffs: seq<Author>)
    ensures authorAffs == OrderedSpec(san, split, parts)
  {
    var names: seq<string> := [];
    var affiliations: seq<string> := [];
    authorAffs := [];
    var i := 0;
    while i < |parts|
      invariant 0 <= i <= |parts|
      invariant Gathered(names, affiliations, authorAffs) == OrderedFold(san, split, parts[..i])
    {
      OrderedFoldStep(san, split, parts, i);
      var part := parts[i];
      if IsAffaddrPart(part) {
        affiliations := affiliations + [san(Slice(part, 8, |part|))];
      } else {
        if |names| > 0 && |affiliations| > 0 {
          authorAffs := AppendGroup(authorAffs, names, affiliations);
          affiliations := [];
          names := [];
        }
        names := names + SanEach(san, split(part));
      }
      i := i + 1;
    }
    assert parts[..|parts|] == parts;
    authorAffs := authorAffs + Group(names, affiliations);
  }

  /** `_ordered` loses no name: one author per name of every name line. */
  lemma OrderedKeepsEveryName(san: string -> string, parts: seq<string>)
    ensures |OrderedSpec(san, SplitOnSeparator, parts)| == |AllNames(parts)|
  {
    OrderedCount(san, parts);
  }

  lemma {:induction false} OrderedCount(san: string -> string, parts: seq<string>)
    ensures var g := OrderedFold(san, SplitOnSeparator, parts); |g.authorAffs| + |g.names| == |AllNames(parts)|
    decreases |parts|
  {
    if parts != [] {
      var n := |parts| - 1;
      OrderedCount(san, parts[..n]);
      assert parts[..n + 1] == parts;
      FlatMapStep(parts, NamesOf, n);
    }
  }

  /** The sanitized `\affaddr` lines, as `_ordered` records them. */
  predicate FromAffaddrLine(san: string -> string, parts: seq<string>, x: string) {
    exists j :: 0 <= j < |parts| && IsAffaddrPart(parts[j]) && x == san(Slice(parts[j], 8, |parts[j]|))
  }

  /** Every affiliation `_ordered` hands out is a sanitized `\affaddr` line of the input. */
  lemma OrderedAffiliationsFromLines(san: string -> string, split: string -> seq<string>, parts: seq<string>)
    ensures forall a, x :: a in OrderedSpec(san, split, parts) && x in a.affiliations ==> FromAffaddrLine(san, parts, x)
  {
    OrderedFromLines(san, split, parts);
    var g := OrderedFold(san, split, parts);
    GroupEntries(g.names, g.affiliations);
    forall a, x | a in OrderedSpec(san, split, parts) && x in a.affiliations ensures FromAffaddrLine(san, parts, x) {
      var k :| 0 <= k < |OrderedSpec(san, split, parts)| && OrderedSpec(san, split, parts)[k] == a;
      if k >= |g.authorAffs| {
        assert a == Group(g.names, g.affiliations)[k - |g.authorAffs|];
      } else {
        assert a == g.authorAffs[k];
      }
    }
  }

  predicate AllFromLines(san: string -> string, parts: seq<string>, g: Gathered) {
    && (forall x :: x in g.affiliations ==> FromAffaddrLine(san, parts, x))
    && (forall k, x :: 0 <= k < |g.authorAffs| && x in g.authorAffs[k].affiliations ==> FromAffaddrLine(san, parts, x))
  }

  lemma FromLinesGrow(san: string -> string, parts: seq<string>, n: nat, x: string)
    requires n <= |parts| && FromAffaddrLine(san, parts[..n], x)
    ensures FromAffaddrLine(san, parts, x)
  {
    var j :| 0 <= j < n && IsAffaddrPart(parts[..n][j]) && x == san(Slice(parts[..n][j], 8, |parts[..n][j]|));
    assert parts[..n][j] == parts[j];
  }

  lemma {:induction false} OrderedFromLines(san: string -> string, split: string -> seq<string>, parts: seq<string>)
    ensures AllFromLines(san, parts, OrderedFold(san, split, parts))
    decreases |parts|
  {
    if parts != [] {
      var n := |parts| - 1;
      var g0 := OrderedFold(san, split, parts[..n]);
      OrderedFromLines(san, split, parts[..n]);
      forall x | x in g0.affiliations ensures FromAffaddrLine(san, parts, x) {
        FromLinesGrow(san, parts, n, x);
      }
      forall k, x | 0 <= k < |g0.authorAffs| && x in g0.authorAffs[k].affiliations ensures FromAffaddrLine(san, parts, x) {
        FromLinesGrow(san, parts, n, x);
      }
      var part := parts[n];
      if IsAffaddrPart(part) {
        assert FromAffaddrLine(san, parts, san(Slice(part, 8, |part|)));
      } else if |g0.names| > 0 && |g0.affiliations| > 0 {
        GroupEntries(g0.names, g0.affiliations);
        var out := g0.authorAffs + Group(g0.names, g0.affiliations);
        forall k, x | 0 <= k < |out| && x in out[k].affiliations ensures FromAffaddrLine(san, parts, x) {
          if k >= |g0.authorAffs| {
            assert out[k] == Group(g0.names, g0.affiliations)[k - |g0.authorAffs|];
          } else {
            assert out[k] == g0.authorAffs[k];
          }
        }
      }
    }
  }

  /**
    * The lines are `n` pairs of a name line holding at least one name and
    * an `\affaddr` line.
    */
  predicate Alternating(split: string -> seq<string>, parts: seq<string>, n: nat) {
    && |parts| == 2 * n
    && forall j :: 0 <= j < n ==> PairAt(split, parts, j)
  }

  /** Pair `j`: a name line holding at least one name, then an `\affaddr` line. */
  predicate PairAt(split: string -> seq<string>, parts: seq<string>, j: nat) {
    && 2 * j + 1 < |parts|
    && !IsAffaddrPart(parts[2 * j]) && IsAffaddrPart(parts[2 * j + 1])
    && split(parts[2 * j]) != []
  }

  /** The intended pairing of the first `k` pairs: the names of each name line with the `\affaddr` line after it. */
  function Pairs(san: string -> string, split: string -> seq<string>, parts: seq<string>, k: nat): seq<Author>
    requires 2 * k <= |parts|
  {
    if k == 0 then []
    else
      Pairs(san, split, parts, k - 1)
        + Group(SanEach(san, split(parts[2 * k - 2])), [san(Slice(parts[2 * k - 1], 8, |parts[2 * k - 1]|))])
  }

  /**
    * On alternating name and `\affaddr` lines, `_ordered` gives the names of
    * each line exactly the one affiliation that follows them: nothing leaks
    * from one group to the next.
    */
  lemma OrderedAlternating(san: string -> string, split: string -> seq<string>, parts: seq<string>, n: nat)
    requires Alternating(split, parts, n)
    ensures OrderedSpec(san, split, parts) == Pairs(san, split, parts, n)
  {
    if n > 0 {
      OrderedPrefix(san, split, parts, n);
      assert parts[..2 * n] == parts;
    }
  }

  /** The state `_ordered` reaches after the first `k` pairs. */
  function AfterPairs(san: string -> string, split: string -> seq<string>, parts: seq<string>, k: nat): Gathered
    requires 1 <= k && 2 * k <= |parts|
  {
    Gathered(
      SanEach(san, split(parts[2 * k - 2])),
      [san(Slice(parts[2 * k - 1], 8, |parts[2 * k - 1]|))],
      Pairs(san, split, parts, k - 1))
  }

  lemma {:induction false} OrderedPrefix(san: string -> string, split: string -> seq<string>, parts: seq<string>, n: nat, k: nat := n)
    requires Alternating(split, parts, n) && 1 <= k <= n
    ensures OrderedFold(san, split, parts[..2 * k]) == AfterPairs(san, split, parts, k)
    decreases k
  {
    if k == 1 {
      FirstPair(san, split, parts, n);
    } else {
      OrderedPrefix(san, split, parts, n, k - 1);
      NextPair(san, split, parts, n, k);
    }
  }

  /** Two steps of `_ordered`: a name line, then an `\affaddr` line. */
  lemma TwoSteps(san: string -> string, split: string -> seq<string>, parts: seq<string>, e: nat)
    requires e + 2 <= |parts|
    ensures OrderedFold(san, split, parts[..e + 2])
      == OrderedStep(san, split, OrderedStep(san, split, OrderedFold(san, split, parts[..e]), parts[e]), parts[e + 1])
  {
    OrderedFoldStep(san, split, parts, e);
    OrderedFoldStep(san, split, parts, e + 1);
  }

  lemma FirstPair(san: string -> string, split: string -> seq<string>, parts: seq<string>, n: nat)
    requires Alternating(split, parts, n) && 1 <= n
    ensures OrderedFold(san, split, parts[..2]) == AfterPairs(san, split, parts, 1)
  {
    assert PairAt(split, parts, 0);
    assert parts[..0] == [];
    FoldPair(san, split, parts, 0, Gathered([], [], []));
  }

  lemma NextPair(san: string -> string, split: string -> seq<string>, parts: seq<string>, n: nat, k: nat)
    requires Alternating(split, parts, n) && 2 <= k <= n
    requires OrderedFold(san, split, parts[..2 * k - 2]) == AfterPairs(san, split, parts, k - 1)
    ensures OrderedFold(san, split, parts[..2 * k]) == AfterPairs(san, split, parts, k)
  {
    var g0 := AfterPairs(san, split, parts, k - 1);
    PendingPair(san, split, parts, n, k - 1);
    FoldPairAt(san, split, parts, n, k, g0);
    AfterPairsNext(san, split, parts, k);
  }

  /** Pair `k` folded onto a state with both a name and an affiliation pending. */
  lemma FoldPairAt(san: string -> string, split: string -> seq<string>, parts: seq<string>, n: nat, k: nat, g0: Gathered)
    requires Alternating(split, parts, n) && 1 <= k <= n
    requires OrderedFold(san, split, parts[..2 * k - 2]) == g0 && |g0.names| > 0 && |g0.affiliations| > 0
    ensures OrderedFold(san, split, parts[..2 * k])
      == Gathered(SanEach(san, split(parts[2 * k - 2])), [san(Slice(parts[2 * k - 1], 8, |parts[2 * k - 1]|))],
                  g0.authorAffs + Group(g0.names, g0.affiliations))
  {
    assert PairAt(split, parts, k - 1);
    FoldPair(san, split, parts, 2 * k - 2, g0);
  }

  /** After `k` pairs both a name and an affiliation are pending. */
  lemma PendingPair(san: string -> string, split: string -> seq<string>, parts: seq<string>, n: nat, k: nat)
    requires Alternating(split, parts, n) && 1 <= k <= n
    ensures |AfterPairs(san, split, parts, k).names| > 0 && |AfterPairs(san, split, parts, k).affiliations| > 0
  {
    assert PairAt(split, parts, k - 1);
  }

  /** From a state with both or neither pending, a name line and then an `\affaddr` line flush the pending group and pair the new names with the one affiliation. */
  lemma FoldPair(san: string -> string, split: string -> seq<string>, parts: seq<string>, e: nat, g0: Gathered)
    requires e + 2 <= |parts| && !IsAffaddrPart(parts[e]) && IsAffaddrPart(parts[e + 1])
    requires (g0.names == [] && g0.affiliations == []) || (|g0.names| > 0 && |g0.affiliations| > 0)
    requires OrderedFold(san, split, parts[..e]) == g0
    ensures OrderedFold(san, split, parts[..e + 2])
      == Gathered(SanEach(san, split(parts[e])), [san(Slice(parts[e + 1], 8, |parts[e + 1]|))],
                  if g0.names == [] then g0.authorAffs else g0.authorAffs + Group(g0.names, g0.affiliations))
  {
    TwoSteps(san, split, parts, e);
    PairStep(san, split, g0, parts[e], parts[e + 1]);
  }

  lemma PairStep(san: string -> string, split: string -> seq<string>, g: Gathered, nameLine: string, affLine: string)
    requires !IsAffaddrPart(nameLine) && IsAffaddrPart(affLine)
    requires (g.names == [] && g.affiliations == []) || (|g.names| > 0 && |g.affiliations| > 0)
    ensures OrderedStep(san, split, OrderedStep(san, split, g, nameLine), affLine)
      == Gathered(SanEach(san, split(nameLine)), [san(Slice(affLine, 8, |affLine|))],
                  if g.names == [] then g.authorAffs else g.authorAffs + Group(g.names, g.affiliations))
  {
  }

  /** The state after `k` pairs: pair `k` pending, and the pending group of pair `k - 1` flushed. */
  lemma AfterPairsNext(san: string -> string, split: string -> seq<string>, parts: seq<string>, k: nat)
    requires 2 <= k && 2 * k <= |parts|
    ensures var g := AfterPairs(san, split, parts, k - 1);
      AfterPairs(san, split, parts, k)
        == Gathered(SanEach(san, split(parts[2 * k - 2])), [san(Slice(parts[2 * k - 1], 8, |parts[2 * k - 1]|))],
                    g.authorAffs + Group(g.names, g.affiliations))
  {
  }

  /** `_single_aff`: nothing without an `\affaddr{…}` in the second part, else every name of the first shares it. */
  function SingleAff(san: string -> string, parts: seq<string>): (r: seq<Author>)
    requires |parts| >= 2
    ensures Search(AffaddrContent, parts[1]).None? ==> r == []
    ensures Search(AffaddrContent, parts[1]).Some? ==>
      && |r| == |SplitOnSeparator(parts[0])| && OneAffiliationEach(r)
      && (forall k :: 0 <= k < |r| ==> r[k].affiliations == [san(Inner(Search(AffaddrContent, parts[1]).value))])
      && (forall k :: 0 <= k < |r| ==> r[k].name == san(SplitOnSeparator(parts[0])[k]))
  {
    var authors := SplitOnSeparator(parts[0]);
    match Search(AffaddrContent, parts[1])
    case None => []
    case Some(m) =>
      SharedAt(san, authors, san(Inner(m)));
      Shared(san, authors, san(Inner(m)))
  }

  /** The non-empty stripped lines of `cmd_content[1:-1].rstrip()`. */
  function AffAddrParts(content: string): seq<string> {
    Lines(RStrip(Unbraced(content)), "\\\\")
  }

  /** Which helper `AffAddr.extract` hands its lines to. */
  function AffAddrSpec(san: string -> string, parts: seq<string>): seq<Author> {
    if |parts| == 0 then []
    else if |parts| == 2 then SingleAff(san, parts)
    else if AffaddrBlockShape(parts) then Shared(san, AllNames(parts), san(Join(AffaddrTexts(parts), ", ")))
    else OrderedSpec(san, SplitOnSeparator, parts)
  }

  /**
    * `AffAddr.extract`: no line gives nothing; two lines are names and one
    * affiliation; a block of `\affaddr` lines after the names is shared by
    * all of them; anything else is read as alternating names and
    * affiliations.
    */
  method AffAddrExtract(san: string -> string, content: string) returns (r: seq<Author>)
    ensures r == AffAddrSpec(san, AffAddrParts(content))
  {
    var parts := Lines(RStrip(Unbraced(content)), "\\\\");
    if |parts| == 0 {
      return [];
    }
    if |parts| == 2 {
      return SingleAff(san, parts);
    }
    var block := HasAffaddrBlock(parts);
    if block {
      r := AffaddrBlock(san, parts);
      SharedAt(san, AllNames(parts), san(Join(AffaddrTexts(parts), ", ")));
      return;
    }
    r := Ordered(san, SplitOnSeparator, parts);
  }

  // ----------------------------------------------------------------------
  // The `\affmark` schemes
  // ----------------------------------------------------------------------

  /** The characters `strip(r"{},\ ")` removes. */
  const MarkTrim: set<char> := {'{', '}', ',', '\\', ' '}

  /**
    * `_ext_affiliations`: the text around the first `\affmark[…]`, stripped
    * of `{},\ `, with the stripped bracket content as its id. Without an
    * `\affmark[…]` the source takes `group` of `None` and raises: `None`.
    */
  function MarkedAffiliation(text: string): (r: Option<RefAffiliation>)
    ensures r.None? <==> Search(AffmarkContent, text).None?
    ensures r.Some? ==> Trimmed(r.value.refId)
  {
    match Search(AffmarkContent, text)
    case None => None
    case Some(m) => Some(RefAffiliation(StripChars(Delete(text, Text(text, m)), MarkTrim), Strip(Inner(m))))
  }

  /** The name `_ext_affiliations` finds has no `{},\ ` at either end. */
  lemma MarkedAffiliationTrimmed(text: string)
    requires MarkedAffiliation(text).Some?
    ensures var n := MarkedAffiliation(text).value.name; n != [] ==> n[0] !in MarkTrim && n[|n| - 1] !in MarkTrim
  {
    var m := Search(AffmarkContent, text).value;
    StripCharsEnds(Delete(text, Text(text, m)), MarkTrim);
  }

  /** One `AFFMARK_AUTHOR` match of `_ext_authors`: the name stripped of `{},\ `, the stripped reference split into ids. */
  function MarkedAuthor(m: Match): RefAuthor {
    RefAuthor(StripChars(m.g1, MarkTrim), SplitRefStrings(Strip(m.g2)))
  }

  /** `_ext_authors`: one author per `AFFMARK_AUTHOR` match, in order. */
  method ExtAuthors(P: Patterns, content: string) returns (authors: seq<RefAuthor>)
    ensures authors == Map(FindIter(P.affmarkAuthor, content), MarkedAuthor)
  {
    var ms := FindIter(P.affmarkAuthor, content);
    authors := [];
    var i := 0;
    while i < |ms|
      invariant 0 <= i <= |ms|
      invariant authors == Map(ms[..i], MarkedAuthor)
    {
      MapStep(ms, MarkedAuthor, i);
      var name := StripChars(ms[i].g1, MarkTrim);
      var ref := Strip(ms[i].g2);
      authors := authors + [RefAuthor(name, SplitRefStrings(ref))];
      i := i + 1;
    }
    assert ms[..|ms|] == ms;
  }

  /** A comma-separated mark gives ids that are neither empty nor hold a comma. */
  lemma MarkedAuthorCommaIds(m: Match)
    requires |Strip(m.g2)| != 1 && ',' in Strip(m.g2)
    ensures forall x :: x in MarkedAuthor(m).refIds ==> x != "" && ',' !in x
  {
    CommaIds(Strip(m.g2));
  }

  /** What the `\affmark` extractors have collected: authors with their ids, affiliations with theirs. */
  datatype Collected = Collected(authors: seq<RefAuthor>, affiliations: seq<RefAffiliation>)

  /**
    * One `\\`-line of `AffMarkNoAffAddr.extract`: a stripped line that starts
    * with `\affmark` is an affiliation, any other holds authors. `None`: the
    * line raises.
    */
  function MarkLineStep(P: Patterns, c: Collected, line: string): Option<Collected> {
    var l := Strip(line);
    if StartsWith(l, "\\affmark") then
      match MarkedAffiliation(l)
      case None => None
      case Some(a) => Some(Collected(c.authors, c.affiliations + [a]))
    else Some(Collected(c.authors + Map(FindIter(P.affmarkAuthor, l), MarkedAuthor), c.affiliations))
  }

  /** `MarkLineStep` of the given patterns. */
  function MarkStep(P: Patterns): (Collected, string) -> Option<Collected> {
    (c: Collected, line: string) => MarkLineStep(P, c, line)
  }

  /** The loop of `AffMarkNoAffAddr.extract` over the lines; `None` when a line raises. */
  function MarkLines(P: Patterns, lines: seq<string>): Option<Collected> {
    FoldOpt(MarkStep(P), Collected([], []), lines)
  }

  /** A line that raises: it starts with `\affmark` but holds no `\affmark[…]`. */
  predicate UnmarkedMarkLine(line: string) {
    StartsWith(Strip(line), "\\affmark") && Search(AffmarkContent, Strip(line)).None?
  }

  /** One line raises exactly when it starts with `\affmark` without an `\affmark[…]`. */
  lemma MarkLineRaise(P: Patterns, c: Collected, line: string)
    ensures MarkLineStep(P, c, line).None? <==> UnmarkedMarkLine(line)
  {
  }

  /** `AffMarkNoAffAddr.extract` raises exactly when some line starts with `\affmark` without an `\affmark[…]`. */
  lemma MarkLinesRaise(P: Patterns, lines: seq<string>)
    ensures MarkLines(P, lines).None? <==> exists k :: 0 <= k < |lines| && UnmarkedMarkLine(lines[k])
  {
    forall c, line ensures MarkStep(P)(c, line).None? <==> UnmarkedMarkLine(line) {
      MarkLineRaise(P, c, line);
    }
    FoldOptNone(MarkStep(P), Collected([], []), lines, UnmarkedMarkLine);
  }

  /** One line of `AffMarkNoAffAddr.extract`. */
  method MarkLine(P: Patterns, c: Collected, line: string) returns (r: Option<Collected>)
    ensures r == MarkLineStep(P, c, line)
  {
    var l := Strip(line);
    if StartsWith(l, "\\affmark") {
      var a := MarkedAffiliation(l);
      if a.None? {
        return None;
      }
      return Some(Collected(c.authors, c.affiliations + [a.value]));
    }
    var authors := ExtAuthors(P, l);
    return Some(Collected(c.authors + authors, c.affiliations));
  }

  /** `AffMarkNoAffAddr.extract`: `None` when it raises. */
  function AffMarkNoAffAddrSpec(P: Patterns, san: string -> string, content: string): Option<seq<Author>> {
    match MarkLines(P, Split(P.joinMulti(AffmarkMulti, content), "\\\\"))
    case None => None
    case Some(c) => Some(Joined(san, c.authors, c.affiliations))
  }

  /**
    * `AffMarkNoAffAddr.extract`: merge adjacent marks, sort the `\\`-lines
    * into affiliations and authors, and join them by id.
    */
  method AffMarkNoAffAddrExtract(P: Patterns, san: string -> string, content: string) returns (r: Option<seq<Author>>)
    ensures r == AffMarkNoAffAddrSpec(P, san, content)
  {
    var joined := P.joinMulti(AffmarkMulti, content);
    var lines := Split(joined, "\\\\");
    var c := Collected([], []);
    var i := 0;
    while i < |lines|
      invariant 0 <= i <= |lines|
      invariant MarkLines(P, lines[..i]) == Some(c)
    {
      FoldOptStep(MarkStep(P), Collected([], []), lines, i);
      var next := MarkLine(P, c, lines[i]);
      if next.None? {
        FoldOptNoneStays(MarkStep(P), Collected([], []), lines, i + 1);
        return None;
      }
      c := next.value;
      i := i + 1;
    }
    assert lines[..|lines|] == lines;
    var authorAff := JoinAuthorAndAffilById(san, c.authors, c.affiliations);
    return Some(authorAff);
  }

  // ----------------------------------------------------------------------
  // `AffMarkAffAddr`: `\affmark` references, affiliations inside `\affaddr{…}`
  // ----------------------------------------------------------------------

  /** `wm.group("cnt")[1:-1].strip()`. */
  function AffaddrPiece(m: Match): string {
    Strip(Inner(m))
  }

  /** An `\affaddr{…}` that wraps further `\affaddr{…}` groups. */
  predicate Wrapping(m: Match) {
    Contains(Lower(AffaddrPiece(m)), "\\affaddr")
  }

  /** The texts one `\affaddr{…}` hands to `_ext_affiliations`: its wrapped groups' contents, or its own content. */
  function Pieces(m: Match): (r: seq<string>)
    ensures !Wrapping(m) ==> r == [AffaddrPiece(m)]
  {
    var cnt := AffaddrPiece(m);
    if Wrapping(m) then Map(FindIter(AffaddrContent, cnt), AffaddrPiece) else [cnt]
  }

  /** The texts deleted from the content for one `\affaddr{…}`: its wrapped groups, or itself. */
  function RemovedOf(c0: string, m: Match): seq<string> {
    var cnt := AffaddrPiece(m);
    if Wrapping(m) then MatchTexts(cnt, FindIter(AffaddrContent, cnt)) else [Text(c0, m)]
  }

  function AllRemoved(c0: string, ms: seq<Match>): seq<string>
    decreases |ms|
  {
    if ms == [] then [] else AllRemoved(c0, ms[..|ms| - 1]) + RemovedOf(c0, ms[|ms| - 1])
  }

  /** `affiliations.append(_ext_affiliations(piece))`; `None` when it raises. */
  function AddMarked(affs: seq<RefAffiliation>, piece: string): (r: Option<seq<RefAffiliation>>)
    ensures r.None? <==> Search(AffmarkContent, piece).None?
    ensures r.Some? ==> r.value == affs + [MarkedAffiliation(piece).value]
  {
    match MarkedAffiliation(piece)
    case None => None
    case Some(a) => Some(affs + [a])
  }

  /** `_ext_affiliations` of every piece in turn; `None` when one raises. */
  function MarkedAll(pieces: seq<string>): Option<seq<RefAffiliation>> {
    FoldOpt(AddMarked, [], pieces)
  }

  /** A piece `_ext_affiliations` raises on. */
  predicate Unmarked(piece: string) {
    Search(AffmarkContent, piece).None?
  }

  /**
    * `AffMarkAffAddr.extract`: merge adjacent marks; one affiliation per
    * (wrapped) `\affaddr{…}`, each deleted from the content; the authors of
    * what is left; joined by id. `None` when it raises.
    */
  function AffMarkAffAddrSpec(P: Patterns, san: string -> string, content: string): Option<seq<Author>> {
    var c0 := P.joinMulti(AffmarkMulti, content);
    var ms := FindIter(AffaddrContent, c0);
    match MarkedAll(FlatMap(ms, Pieces))
    case None => None
    case Some(affs) => Some(Joined(san, Map(FindIter(P.affmarkAuthor, DeleteAll(c0, AllRemoved(c0, ms))), MarkedAuthor), affs))
  }

  /** `AffMarkAffAddr.extract` raises exactly when some `\affaddr{…}` piece holds no `\affmark[…]`. */
  lemma AffMarkAffAddrRaise(P: Patterns, san: string -> string, content: string)
    ensures var pieces := FlatMap(FindIter(AffaddrContent, P.joinMulti(AffmarkMulti, content)), Pieces);
      AffMarkAffAddrSpec(P, san, content).None? <==> exists k :: 0 <= k < |pieces| && Unmarked(pieces[k])
  {
    var pieces := FlatMap(FindIter(AffaddrContent, P.joinMulti(AffmarkMulti, content)), Pieces);
    FoldOptNone(AddMarked, [], pieces, Unmarked);
  }

  /** Every affiliation `AffMarkAffAddr` keeps has a trimmed id. */
  lemma {:induction false} MarkedAllTrimmed(pieces: seq<string>, affs0: seq<RefAffiliation>)
    requires forall a :: a in affs0 ==> Trimmed(a.refId)
    ensures FoldOpt(AddMarked, affs0, pieces).Some? ==> forall a :: a in FoldOpt(AddMarked, affs0, pieces).value ==> Trimmed(a.refId)
    decreases |pieces|
  {
    if pieces != [] {
      MarkedAllTrimmed(pieces[..|pieces| - 1], affs0);
    }
  }

  /** The body of the outer loop for one `\affaddr{…}`, with the nested loop over wrapped groups. */
  method AffaddrGroup(c0: string, m: Match, affs0: seq<RefAffiliation>, c1: string)
    returns (r: Option<seq<RefAffiliation>>, c: string)
    ensures r == FoldOpt(AddMarked, affs0, Pieces(m))
    ensures r.Some? ==> c == DeleteAll(c1, RemovedOf(c0, m))
  {
    var cnt := Strip(Inner(m));
    if Contains(Lower(cnt), "\\affaddr") {
      r, c := WrappedGroups(cnt, FindIter(AffaddrContent, cnt), affs0, c1);
    } else {
      assert [cnt][..0] == [];
      var a := MarkedAffiliation(cnt);
      if a.None? {
        return None, c1;
      }
      assert [Text(c0, m)][..0] == [];
      r := Some(affs0 + [a.value]);
      c := Delete(c1, Text(c0, m));
    }
  }

  /** The nested loop over the groups an `\affaddr{…}` wraps: one affiliation per group, each deleted from the text. */
  method WrappedGroups(cnt: string, wms: seq<Match>, affs0: seq<RefAffiliation>, c1: string)
    returns (r: Option<seq<RefAffiliation>>, c: string)
    ensures r == FoldOpt(AddMarked, affs0, Map(wms, AffaddrPiece))
    ensures r.Some? ==> c == DeleteAll(c1, MatchTexts(cnt, wms))
  {
    var affs := affs0;
    c := c1;
    var j := 0;
    WrappedStart(cnt, wms, affs0, c1);
    while j < |wms|
      invariant 0 <= j <= |wms|
      invariant WrappedDone(cnt, wms, affs0, c1, j, affs, c)
    {
      var next, c' := MarkedGroup(cnt, wms[j], affs, c);
      WrappedStep(cnt, wms, affs0, c1, j, affs, c, next, c');
      if next.None? {
        return None, c;
      }
      affs, c := next.value, c';
      j := j + 1;
    }
    WrappedEnd(cnt, wms, affs0, c1, affs, c);
    r := Some(affs);
  }

  /** After the first `j` wrapped groups: their affiliations are `affs` and their texts are deleted from `c`. */
  predicate WrappedDone(cnt: string, wms: seq<Match>, affs0: seq<RefAffiliation>, c1: string,
                        j: nat, affs: seq<RefAffiliation>, c: string)
    requires j <= |wms|
  {
    FoldOpt(AddMarked, affs0, Map(wms, AffaddrPiece)[..j]) == Some(affs) && c == DeleteAll(c1, MatchTexts(cnt, wms)[..j])
  }

  lemma WrappedStart(cnt: string, wms: seq<Match>, affs0: seq<RefAffiliation>, c1: string)
    ensures WrappedDone(cnt, wms, affs0, c1, 0, affs0, c1)
  {
    assert Map(wms, AffaddrPiece)[..0] == [];
    assert MatchTexts(cnt, wms)[..0] == [];
  }

  lemma WrappedStep(cnt: string, wms: seq<Match>, affs0: seq<RefAffiliation>, c1: string,
                    j: nat, affs: seq<RefAffiliation>, c: string, next: Option<seq<RefAffiliation>>, c': string)
    requires j < |wms| && WrappedDone(cnt, wms, affs0, c1, j, affs, c)
    requires next == AddMarked(affs, AffaddrPiece(wms[j]))
    requires next.Some? ==> c' == Delete(c, Text(cnt, wms[j]))
    ensures next.Some? ==> WrappedDone(cnt, wms, affs0, c1, j + 1, next.value, c')
    ensures next.None? ==> FoldOpt(AddMarked, affs0, Map(wms, AffaddrPiece)).None?
  {
    var pieces := Map(wms, AffaddrPiece);
    var texts := MatchTexts(cnt, wms);
    MapAt(wms, AffaddrPiece);
    FoldOptStep(AddMarked, affs0, pieces, j);
    DeleteAllStep(c1, texts, j);
    if next.None? {
      FoldOptNoneStays(AddMarked, affs0, pieces, j + 1);
    }
  }

  lemma WrappedEnd(cnt: string, wms: seq<Match>, affs0: seq<RefAffiliation>, c1: string, affs: seq<RefAffiliation>, c: string)
    requires WrappedDone(cnt, wms, affs0, c1, |wms|, affs, c)
    ensures Some(affs) == FoldOpt(AddMarked, affs0, Map(wms, AffaddrPiece))
    ensures c == DeleteAll(c1, MatchTexts(cnt, wms))
  {
    TakeAll(Map(wms, AffaddrPiece));
    TakeAll(MatchTexts(cnt, wms));
  }

  lemma TakeAll<T>(xs: seq<T>)
    ensures xs[..|xs|] == xs
  {
  }

  /** One turn of the nested loop: the group's affiliation added and its text deleted. */
  method MarkedGroup(cnt: string, wm: Match, affs: seq<RefAffiliation>, c: string)
    returns (next: Option<seq<RefAffiliation>>, c': string)
    ensures next == AddMarked(affs, AffaddrPiece(wm))
    ensures next.Some? ==> c' == Delete(c, Text(cnt, wm))
  {
    var a := MarkedAffiliation(Strip(Inner(wm)));
    if a.None? {
      return None, c;
    }
    next := Some(affs + [a.value]);
    c' := Delete(c, Text(cnt, wm));
  }

  /** After the first `i` groups: their affiliations are `affs` and their pieces are deleted from `c`. */
  predicate GroupsDone(c0: string, ms: seq<Match>, i: nat, affs: seq<RefAffiliation>, c: string)
    requires i <= |ms|
  {
    MarkedAll(FlatMap(ms[..i], Pieces)) == Some(affs) && c == DeleteAll(c0, AllRemoved(c0, ms[..i]))
  }

  /** One round of the loop over the `\affaddr{…}` groups. */
  method GroupRound(c0: string, ms: seq<Match>, i: nat, affs: seq<RefAffiliation>, c: string)
    returns (next: Option<seq<RefAffiliation>>, c': string)
    requires i < |ms| && GroupsDone(c0, ms, i, affs, c)
    ensures next.Some? ==> GroupsDone(c0, ms, i + 1, next.value, c')
    ensures next.None? ==> MarkedAll(FlatMap(ms, Pieces)).None?
  {
    next, c' := AffaddrGroup(c0, ms[i], affs, c);
    GroupStep(c0, ms, i, affs, c, next, c');
  }

  /** One round of the outer loop: the affiliations and the text after one more `\affaddr{…}` group. */
  lemma GroupStep(c0: string, ms: seq<Match>, i: nat, affs: seq<RefAffiliation>, c: string,
                  next: Option<seq<RefAffiliation>>, c': string)
    requires i < |ms| && MarkedAll(FlatMap(ms[..i], Pieces)) == Some(affs)
    requires c == DeleteAll(c0, AllRemoved(c0, ms[..i]))
    requires next == FoldOpt(AddMarked, affs, Pieces(ms[i]))
    requires next.Some? ==> c' == DeleteAll(c, RemovedOf(c0, ms[i]))
    ensures next == MarkedAll(FlatMap(ms[..i + 1], Pieces))
    ensures next.Some? ==> c' == DeleteAll(c0, AllRemoved(c0, ms[..i + 1]))
    ensures next.None? ==> MarkedAll(FlatMap(ms, Pieces)).None?
  {
    PiecesStep(ms, i, affs);
    RemovedStep(c0, ms, i);
    if next.None? {
      AffaddrGroupsRaise(ms, i + 1);
    }
  }

  /** One round of the outer loop: the pieces of the next `\affaddr{…}` extend the prefix's. */
  lemma PiecesStep(ms: seq<Match>, i: nat, affs: seq<RefAffiliation>)
    requires i < |ms| && MarkedAll(FlatMap(ms[..i], Pieces)) == Some(affs)
    ensures MarkedAll(FlatMap(ms[..i + 1], Pieces)) == FoldOpt(AddMarked, affs, Pieces(ms[i]))
  {
    FlatMapStep(ms, Pieces, i);
    FoldOptAppend(AddMarked, [], FlatMap(ms[..i], Pieces), Pieces(ms[i]));
  }

  /** One round of the outer loop: the deletions of the next `\affaddr{…}` extend the prefix's. */
  lemma RemovedStep(c0: string, ms: seq<Match>, i: nat)
    requires i < |ms|
    ensures DeleteAll(c0, AllRemoved(c0, ms[..i + 1])) == DeleteAll(DeleteAll(c0, AllRemoved(c0, ms[..i])), RemovedOf(c0, ms[i]))
  {
    assert ms[..i + 1][..i] == ms[..i];
    DeleteAllAppend(c0, AllRemoved(c0, ms[..i]), RemovedOf(c0, ms[i]));
  }

  /** A raise on the first groups is a raise of the whole extraction. */
  lemma AffaddrGroupsRaise(ms: seq<Match>, k: nat)
    requires k <= |ms| && MarkedAll(FlatMap(ms[..k], Pieces)).None?
    ensures MarkedAll(FlatMap(ms, Pieces)).None?
  {
    FlatFoldNone(ms, Pieces, AddMarked, [], k);
  }

  method AffMarkAffAddrExtract(P: Patterns, san: string -> string, content: string) returns (r: Option<seq<Author>>)
    ensures r == AffMarkAffAddrSpec(P, san, content)
  {
    var c0 := P.joinMulti(AffmarkMulti, content);
    var ms := FindIter(AffaddrContent, c0);
    var affs, c := AffaddrGroupsLoop(c0, ms);
    if affs.None? {
      return None;
    }
    var authors := ExtAuthors(P, c);
    var joined := JoinAuthorAndAffilById(san, authors, affs.value);
    return Some(joined);
  }

  /**
    * The loop of `AffMarkAffAddr.extract` over the `\affaddr{…}` groups: the
    * affiliations of all their pieces, `None` as soon as one raises, and
    * the text with every group's pieces deleted.
    */
  method AffaddrGroupsLoop(c0: string, ms: seq<Match>) returns (r: Option<seq<RefAffiliation>>, c: string)
    ensures r == MarkedAll(FlatMap(ms, Pieces))
    ensures r.Some? ==> c == DeleteAll(c0, AllRemoved(c0, ms))
  {
    var affs: seq<RefAffiliation> := [];
    c := c0;
    var i := 0;
    while i < |ms|
      invariant 0 <= i <= |ms|
      invariant GroupsDone(c0, ms, i, affs, c)
    {
      var next, c' := GroupRound(c0, ms, i, affs, c);
      if next.None? {
        return None, c;
      }
      affs := next.value;
      c := c';
      i := i + 1;
    }
    assert ms[..|ms|] == ms;
    r := Some(affs);
  }

  // ----------------------------------------------------------------------
  // `AlignAuthorAffAddr`: one `\alignauthor` block per affiliation
  // ----------------------------------------------------------------------

  /** The stripped content of an `\affaddr{…}`, dropped when empty. */
  function NonEmptyPiece(m: Match): (r: seq<string>)
    ensures r == [] <==> AffaddrPiece(m) == ""
  {
    var cnt := AffaddrPiece(m);
    if cnt == "" then [] else [cnt]
  }

  /**
    * One `\alignauthor` part: every name of its `\\`-lines, once all its
    * `\affaddr{…}` are deleted, shares the sanitized `", "`-join of their
    * non-empty contents.
    */
  function AlignAuthorPart(san: string -> string, split: string -> seq<string>, part: string): (r: seq<Author>)
    ensures OneAffiliationEach(r)
  {
    var ms := FindIter(AffaddrContent, part);
    Shared(san, FlatMap(Lines(DeleteAll(part, MatchTexts(part, ms)), "\\\\"), split), san(Join(FlatMap(ms, NonEmptyPiece), ", ")))
  }

  function AlignAuthorPartOf(san: string -> string, split: string -> seq<string>): string -> seq<Author> {
    (part: string) => AlignAuthorPart(san, split, part)
  }

  /** The authors of every part, in order. */
  function AlignAuthorParts(san: string -> string, split: string -> seq<string>, parts: seq<string>): seq<Author> {
    FlatMap(parts, AlignAuthorPartOf(san, split))
  }

  /** `AlignAuthorAffAddr.extract` over the `\alignauthor` parts of the content without its braces. */
  function AlignAuthorAffAddrSpec(san: string -> string, split: string -> seq<string>, content: string): seq<Author> {
    AlignAuthorParts(san, split, Lines(Unbraced(content), "\\alignauthor"))
  }

  /** Every author of `AlignAuthorAffAddr` carries exactly one affiliation: the one of its part. */
  lemma {:induction false} AlignAuthorPartsOneEach(san: string -> string, split: string -> seq<string>, parts: seq<string>)
    ensures OneAffiliationEach(AlignAuthorParts(san, split, parts))
    decreases |parts|
  {
    if parts != [] {
      var n := |parts| - 1;
      AlignAuthorPartsOneEach(san, split, parts[..n]);
      assert AlignAuthorParts(san, split, parts) == AlignAuthorParts(san, split, parts[..n]) + AlignAuthorPart(san, split, parts[n]);
      OneAffiliationEachAppend(AlignAuthorParts(san, split, parts[..n]), AlignAuthorPart(san, split, parts[n]));
    }
  }

  /** Within a part, every author shares the one joined affiliation. */
  lemma AlignAuthorPartShared(san: string -> string, split: string -> seq<string>, part: string)
    ensures var ms := FindIter(AffaddrContent, part);
      var aff := san(Join(FlatMap(ms, NonEmptyPiece), ", "));
      forall k :: 0 <= k < |AlignAuthorPart(san, split, part)| ==> AlignAuthorPart(san, split, part)[k].affiliations == [aff]
  {
    var ms := FindIter(AffaddrContent, part);
    SharedAt(san, FlatMap(Lines(DeleteAll(part, MatchTexts(part, ms)), "\\\\"), split), san(Join(FlatMap(ms, NonEmptyPiece), ", ")));
  }

  /** The body of the loop for one `\alignauthor` part. */
  method AlignAuthorPartExtract(san: string -> string, split: string -> seq<string>, part: string) returns (r: seq<Author>)
    ensures r == AlignAuthorPart(san, split, part)
  {
    var ms := FindIter(AffaddrContent, part);
    var affiliationParts, rest := AffaddrPieces(part, ms);
    var affiliation := san(Join(affiliationParts, ", "));
    var nameParts := Lines(rest, "\\\\");
    r := SharedParts(san, split, nameParts, affiliation);
  }

  /** The inner loop over the `\affaddr{…}` matches of a part: their non-empty contents, and the part without them. */
  method AffaddrPieces(part: string, ms: seq<Match>) returns (affiliationParts: seq<string>, rest: string)
    ensures affiliationParts == FlatMap(ms, NonEmptyPiece)
    ensures rest == DeleteAll(part, MatchTexts(part, ms))
  {
    ghost var texts := MatchTexts(part, ms);
    affiliationParts := [];
    rest := part;
    var i := 0;
    while i < |ms|
      invariant 0 <= i <= |ms|
      invariant affiliationParts == FlatMap(ms[..i], NonEmptyPiece)
      invariant rest == DeleteAll(part, texts[..i])
    {
      FlatMapStep(ms, NonEmptyPiece, i);
      DeleteAllStep(part, texts, i);
      assert texts[i] == Text(part, ms[i]);
      var cnt := Strip(Inner(ms[i]));
      rest := Delete(rest, Text(part, ms[i]));
      if cnt != "" {
        affiliationParts := affiliationParts + [cnt];
      }
      i := i + 1;
    }
    assert ms[..|ms|] == ms;
    assert texts[..|ms|] == texts;
  }

  method AlignAuthorAffAddrExtract(san: string -> string, split: string -> seq<string>, content: string)
    returns (authorAff: seq<Author>)
    ensures authorAff == AlignAuthorAffAddrSpec(san, split, content)
  {
    var parts := Lines(Unbraced(content), "\\alignauthor");
    authorAff := AlignAuthorPartsLoop(san, split, parts);
  }

  /** The loop of `AlignAuthorAffAddr.extract` over the `\alignauthor` parts. */
  method AlignAuthorPartsLoop(san: string -> string, split: string -> seq<string>, parts: seq<string>)
    returns (authorAff: seq<Author>)
    ensures authorAff == AlignAuthorParts(san, split, parts)
  {
    authorAff := [];
    var i := 0;
    while i < |parts|
      invariant 0 <= i <= |parts|
      invariant authorAff == AlignAuthorParts(san, split, parts[..i])
    {
      var authors := AlignAuthorPartExtract(san, split, parts[i]);
      FlatMapStep(parts, AlignAuthorPartOf(san, split), i);
      authorAff := authorAff + authors;
      i := i + 1;
    }
    assert parts[..|parts|] == parts;
  }

  // ----------------------------------------------------------------------
  // `AffAddrMathMode`: `\affaddr{…}` with math-mode references
  // ----------------------------------------------------------------------

  /** The characters `strip("{}^ ")` removes from an affiliation's reference. */
  const RefTrim: set<char> := {'{', '}', '^', ' '}

  /** The characters `strip("${}^ ")` removes from an author's reference. */
  const MathRefTrim: set<char> := {'$', '{', '}', '^', ' '}

  /**
    * One `\affaddr{…}` of `_basic_affaddr_math_case`: the content with its
    * first math-mode group deleted, that group's stripped content as the id;
    * nothing when the content holds no math mode.
    */
  function MathAffiliation(m: Match): (r: seq<RefAffiliation>)
    ensures r == [] <==> Search(MathModeContent, Inner(m)).None?
    ensures |r| <= 1
  {
    var affiliation := Inner(m);
    match Search(MathModeContent, affiliation)
    case None => []
    case Some(rm) => [RefAffiliation(Delete(affiliation, Text(affiliation, rm)), StripChars(rm.g1, RefTrim))]
  }

  /** One `MATH_AUTHOR_REF` match: skipped when its name or its reference is empty. */
  function MathAuthor(m: Match): (r: seq<RefAuthor>)
    ensures r == [] <==> m.g1 == "" || m.g2 == ""
    ensures r != [] ==> r == [RefAuthor(m.g1, SplitRefStrings(StripChars(m.g2, MathRefTrim)))]
  {
    if m.g1 == "" || m.g2 == "" then [] else [RefAuthor(m.g1, SplitRefStrings(StripChars(m.g2, MathRefTrim)))]
  }

  /** `m.group(0)` of every match. */
  function MatchTexts(s: string, ms: seq<Match>): (r: seq<string>)
    ensures |r| == |ms| && forall k :: 0 <= k < |ms| ==> r[k] == Text(s, ms[k])
  {
    seq(|ms|, k requires 0 <= k < |ms| => Text(s, ms[k]))
  }

  /** `content[13:] if content.startswith(r"\alignauthor ") else content`. */
  function WithoutAlignauthor(s: string): (r: string)
    ensures StartsWith(s, "\\alignauthor ") ==> s == "\\alignauthor " + r
    ensures !StartsWith(s, "\\alignauthor ") ==> r == s
  {
    if StartsWith(s, "\\alignauthor ") then s[13..] else s
  }

  /**
    * `_basic_affaddr_math_case`: the affiliations of the `\affaddr{…}` groups
    * that carry a math-mode reference; the authors found by `MATH_AUTHOR_REF`
    * in the content with every `\affaddr{…}` deleted; joined by id.
    */
  function BasicAffaddrMathCase(P: Patterns, san: string -> string, content: string): (r: seq<Author>)
    ensures |r| == |FlatMap(FindIter(P.mathAuthorRef, WithoutAlignauthor(DeleteAll(content, MatchTexts(content, FindIter(AffaddrContent, content))))), MathAuthor)|
  {
    var ms := FindIter(AffaddrContent, content);
    var rest := WithoutAlignauthor(DeleteAll(content, MatchTexts(content, ms)));
    Joined(san, FlatMap(FindIter(P.mathAuthorRef, rest), MathAuthor), FlatMap(ms, MathAffiliation))
  }

  /** The first loop of `_basic_affaddr_math_case`. */
  method MathAffiliations(content: string) returns (affiliations: seq<RefAffiliation>, rest: string)
    ensures affiliations == FlatMap(FindIter(AffaddrContent, content), MathAffiliation)
    ensures rest == DeleteAll(content, MatchTexts(content, FindIter(AffaddrContent, content)))
  {
    var ms := FindIter(AffaddrContent, content);
    ghost var texts := MatchTexts(content, ms);
    affiliations := [];
    rest := content;
    var i := 0;
    while i < |ms|
      invariant 0 <= i <= |ms|
      invariant affiliations == FlatMap(ms[..i], MathAffiliation)
      invariant rest == DeleteAll(content, texts[..i])
    {
      FlatMapStep(ms, MathAffiliation, i);
      DeleteAllStep(content, texts, i);
      var affiliation := Inner(ms[i]);
      rest := Delete(rest, Text(content, ms[i]));
      var refMatch := Search(MathModeContent, affiliation);
      if refMatch.Some? {
        var rm := refMatch.value;
        affiliations := affiliations + [RefAffiliation(Delete(affiliation, Text(affiliation, rm)), StripChars(rm.g1, RefTrim))];
      }
      i := i + 1;
    }
    assert ms[..|ms|] == ms;
    assert texts[..|ms|] == texts;
  }

  /** The second loop of `_basic_affaddr_math_case`. */
  method MathAuthors(P: Patterns, rest: string) returns (authors: seq<RefAuthor>)
    ensures authors == FlatMap(FindIter(P.mathAuthorRef, rest), MathAuthor)
  {
    var ms := FindIter(P.mathAuthorRef, rest);
    authors := [];
    var i := 0;
    while i < |ms|
      invariant 0 <= i <= |ms|
      invariant authors == FlatMap(ms[..i], MathAuthor)
    {
      FlatMapStep(ms, MathAuthor, i);
      var name := ms[i].g1;
      var ref := ms[i].g2;
      if name != "" && ref != "" {
        authors := authors + [RefAuthor(name, SplitRefStrings(StripChars(ref, MathRefTrim)))];
      }
      i := i + 1;
    }
    assert ms[..|ms|] == ms;
  }

  method BasicAffaddrMathCaseExtract(P: Patterns, san: string -> string, content: string) returns (r: seq<Author>)
    ensures r == BasicAffaddrMathCase(P, san, content)
  {
    var affiliations, rest := MathAffiliations(content);
    rest := if StartsWith(rest, "\\alignauthor ") then rest[13..] else rest;
    var authors := MathAuthors(P, rest);
    r := JoinAuthorAndAffilById(san, authors, affiliations);
  }

  /** The authors of the math case are exactly its `MATH_AUTHOR_REF` matches with a name and a reference, in order. */
  lemma BasicAffaddrMathCaseNames(P: Patterns, san: string -> string, content: string)
    ensures var rest := WithoutAlignauthor(DeleteAll(content, MatchTexts(content, FindIter(AffaddrContent, content))));
      var authors := FlatMap(FindIter(P.mathAuthorRef, rest), MathAuthor);
      && (forall k :: 0 <= k < |authors| ==> BasicAffaddrMathCase(P, san, content)[k].name == san(authors[k].name))
      && (forall a :: a in authors <==> exists k :: 0 <= k < |FindIter(P.mathAuthorRef, rest)| && a in MathAuthor(FindIter(P.mathAuthorRef, rest)[k]))
  {
    var rest := WithoutAlignauthor(DeleteAll(content, MatchTexts(content, FindIter(AffaddrContent, content))));
    var ms := FindIter(P.mathAuthorRef, rest);
    forall a ensures a in FlatMap(ms, MathAuthor) <==> exists k :: 0 <= k < |ms| && a in MathAuthor(ms[k]) {
      FlatMapIn(ms, MathAuthor, a);
    }
  }

  /**
    * One `\alignauthor{…}` of `_alignauthor_block`: without `$` and with one
    * `affaddr`, every name of the `\\`-lines around the `\affaddr{…}` shares
    * it (nothing when the `affaddr` is not an `\affaddr{…}`); otherwise the
    * math case.
    */
  function AlignauthorPart(P: Patterns, san: string -> string, split: string -> seq<string>, ac: string): seq<Author> {
    if !Contains(ac, "$") && Count(Lower(ac), "affaddr") == 1 then
      match Search(AffaddrContent, ac)
      case None => []
      case Some(am) => Shared(san, FlatMap(Lines(ac[..am.start] + ac[am.end..], "\\\\"), split), san(Inner(am)))
    else BasicAffaddrMathCase(P, san, ac)
  }

  /** In the shared case every author carries the one sanitized `\affaddr{…}`. */
  lemma AlignauthorPartShared(P: Patterns, san: string -> string, split: string -> seq<string>, ac: string)
    requires !Contains(ac, "$") && Count(Lower(ac), "affaddr") == 1
    ensures var r := AlignauthorPart(P, san, split, ac);
      && (Search(AffaddrContent, ac).None? ==> r == [])
      && (Search(AffaddrContent, ac).Some? ==>
            var am := Search(AffaddrContent, ac).value;
            var names := FlatMap(Lines(ac[..am.start] + ac[am.end..], "\\\\"), split);
            |r| == |names| && forall k :: 0 <= k < |r| ==> r[k] == Author(san(names[k]), [san(Inner(am))]))
  {
    if Search(AffaddrContent, ac).Some? {
      var am := Search(AffaddrContent, ac).value;
      SharedAt(san, FlatMap(Lines(ac[..am.start] + ac[am.end..], "\\\\"), split), san(Inner(am)));
    }
  }

  method AlignauthorPartExtract(P: Patterns, san: string -> string, split: string -> seq<string>, ac: string)
    returns (r: seq<Author>)
    ensures r == AlignauthorPart(P, san, split, ac)
  {
    if !Contains(ac, "$") && Count(Lower(ac), "affaddr") == 1 {
      var found := Search(AffaddrContent, ac);
      if found.None? {
        return [];
      }
      var am := found.value;
      var affiliation := Inner(am);
      var rest := ac[..am.start] + ac[am.end..];
      var nameParts := Lines(rest, "\\\\");
      r := SharedParts(san, split, nameParts, san(affiliation));
    } else {
      r := BasicAffaddrMathCaseExtract(P, san, ac);
    }
  }

  /** The authors of the `\alignauthor{…}` groups, one group after the other. */
  function AlignBlocks(P: Patterns, san: string -> string, split: string -> seq<string>, ms: seq<Match>): seq<Author>
    decreases |ms|
  {
    if ms == [] then []
    else AlignBlocks(P, san, split, ms[..|ms| - 1]) + AlignauthorPart(P, san, split, Inner(ms[|ms| - 1]))
  }

  /** `_alignauthor_block`. */
  function AlignauthorBlock(P: Patterns, san: string -> string, split: string -> seq<string>, content: string): seq<Author> {
    AlignBlocks(P, san, split, FindIter(AlignauthorContent, content))
  }

  method AlignauthorBlockExtract(P: Patterns, san: string -> string, split: string -> seq<string>, content: string)
    returns (authorAff: seq<Author>)
    ensures authorAff == AlignauthorBlock(P, san, split, content)
  {
    var ms := FindIter(AlignauthorContent, content);
    authorAff := AlignBlocksLoop(P, san, split, ms);
  }

  /** The loop of `_alignauthor_block` over the `\alignauthor{…}` groups. */
  method AlignBlocksLoop(P: Patterns, san: string -> string, split: string -> seq<string>, ms: seq<Match>)
    returns (authorAff: seq<Author>)
    ensures authorAff == AlignBlocks(P, san, split, ms)
  {
    authorAff := [];
    var i := 0;
    while i < |ms|
      invariant 0 <= i <= |ms|
      invariant authorAff == AlignBlocks(P, san, split, ms[..i])
    {
      assert ms[..i + 1][..i] == ms[..i];
      var part := AlignauthorPartExtract(P, san, split, Inner(ms[i]));
      authorAff := authorAff + part;
      i := i + 1;
    }
    assert ms[..|ms|] == ms;
  }

  /**
    * `AffAddrMathMode.extract`: the content without its braces, stripped;
    * the `\alignauthor{` form or the math case.
    */
  function AffAddrMathModeSpec(P: Patterns, san: string -> string, split: string -> seq<string>, content: string): seq<Author> {
    var c := Strip(Unbraced(content));
    if Contains(c, "\\alignauthor{") then AlignauthorBlock(P, san, split, c) else BasicAffaddrMathCase(P, san, c)
  }

  /** `AffAddrMathMode.extract`; the merge of adjacent math references is computed and dropped. */
  method AffAddrMathModeExtract(P: Patterns, san: string -> string, split: string -> seq<string>, content: string)
    returns (r: seq<Author>)
    ensures r == AffAddrMathModeSpec(P, san, split, content)
  {
    var c := Strip(Unbraced(content));
    var merged := P.joinMulti(MathModeMulti, c);
    if Contains(c, "\\alignauthor{") {
      r := AlignauthorBlockExtract(P, san, split, c);
    } else {
      r := BasicAffaddrMathCaseExtract(P, san, c);
    }
  }

  /** The alignment groups do not depend on how adjacent math references are merged. */
  lemma {:induction false} AlignBlocksIgnoreMerge(P: Patterns, join: (Multi, string) -> string, san: string -> string,
                                                  split: string -> seq<string>, ms: seq<Match>)
    ensures AlignBlocks(P.(joinMulti := join), san, split, ms) == AlignBlocks(P, san, split, ms)
    decreases |ms|
  {
    if ms != [] {
      AlignBlocksIgnoreMerge(P, join, san, split, ms[..|ms| - 1]);
    }
  }

  /**
    * Because the merge result is discarded, `AffAddrMathMode.extract` gives
    * the same authors whatever merge the patterns carry: adjacent math
    * references are never joined.
    */
  lemma AffAddrMathModeIgnoresMerge(P: Patterns, join: (Multi, string) -> string, san: string -> string,
                                    split: string -> seq<string>, content: string)
    ensures AffAddrMathModeSpec(P.(joinMulti := join), san, split, content) == AffAddrMathModeSpec(P, san, split, content)
  {
    AlignBlocksIgnoreMerge(P, join, san, split, FindIter(AlignauthorContent, Strip(Unbraced(content))));
  }
}
