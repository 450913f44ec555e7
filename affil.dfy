/**
  * The `\affil` schemes: names followed by an `\affil{…}` holding their
  * affiliation (`NameAffil`), names followed by an `\affil{…}` holding
  * references to affiliations introduced by `\inst{…}` (`AffilRefInst`), and
  * names and `\affil{…}`s carrying math-mode references (`AffilMath`).
  */
module AffilScheme {
  import opened PyStr
  import opened Regex
  import opened RegExp
  import opened Patterns
  import opened Authors
  import opened CmdUtil
  import opened Scheme
  import AffiliationScheme

  // ----------------------------------------------------------------------
  // Validators
  // ----------------------------------------------------------------------

  /** `NameAffil.validate`. */
  predicate NameAffilValid(content: string) {
    if Has(content, "\\textsuperscript") || Has(content, "\\inst") then false
    else if MathRefs(content) != 0 then false
    else Has(content, "\\affil")
  }

  /** `AffilRefInst.validate`. */
  predicate AffilRefInstValid(content: string) {
    Has(content, "\\inst") && Has(content, "\\affil")
  }

  /** `AffilMath.validate`. */
  predicate AffilMathValid(content: string) {
    if Has(content, "\\textsuperscript") || Has(content, "\\inst") then false
    else if MathRefs(content) == 0 then false
    else Has(content, "\\affil")
  }

  /**
    * The three `\affil` validators are pairwise exclusive: `NameAffil` wants
    * no math reference and `AffilMath` at least one, and both refuse the
    * `\inst` that `AffilRefInst` needs. Between them `NameAffil` and
    * `AffilMath` accept exactly the contents with `\affil` and neither
    * `\textsuperscript` nor `\inst`.
    */
  lemma AffilValidators(content: string)
    ensures !(NameAffilValid(content) && AffilMathValid(content))
    ensures !(NameAffilValid(content) && AffilRefInstValid(content))
    ensures !(AffilMathValid(content) && AffilRefInstValid(content))
    ensures NameAffilValid(content) || AffilMathValid(content) <==>
      Has(content, "\\affil") && !Has(content, "\\textsuperscript") && !Has(content, "\\inst")
  {
  }

  // ----------------------------------------------------------------------
  // `_find_affiliations`
  // ----------------------------------------------------------------------

  const InstOpen: string := "\\inst{"

  /** The cut points: every `\inst{`, found case-insensitively, then the last position of the text. */
  function InstBounds(text: string): seq<int> {
    AllIndices(InstOpen, text) + [|text| - 1]
  }

  /** `text[start:end]` for each consecutive pair of cut points. */
  function InstSegments(text: string): (r: seq<string>)
    ensures |r| == |InstBounds(text)| - 1
  {
    Cuts(text, InstBounds(text))
  }

  /** `text[b[k]:b[k + 1]]` for each consecutive pair of points of `b`. */
  function Cuts(text: string, b: seq<int>): (r: seq<string>)
    requires |b| >= 1
    ensures |r| == |b| - 1 && forall k :: 0 <= k < |b| - 1 ==> r[k] == Slice(text, b[k], b[k + 1])
  {
    seq(|b| - 1, k requires 0 <= k < |b| - 1 => Slice(text, b[k], b[k + 1]))
  }

  /**
    * One segment: skipped without an `\inst{…}`; otherwise the reference is
    * the stripped brace content of its first one and the name is the segment
    * with that command deleted.
    */
  function InstAffiliation(part: string): (r: seq<RefAffiliation>)
    ensures |r| <= 1
  {
    match Search(InstContent, part)
    case None => []
    case Some(m) => [RefAffiliation(Delete(part, Text(part, m)), Strip(Inner(m)))]
  }

  /** `_find_affiliations`. */
  function FindAffiliations(text: string): seq<RefAffiliation> {
    FlatMap(InstSegments(text), InstAffiliation)
  }

  /** `_find_affiliations`: the loop over consecutive cut points. */
  method FindAffiliationsLoop(text: string) returns (affiliations: seq<RefAffiliation>)
    ensures affiliations == FindAffiliations(text)
  {
    var found := FindAllIndices(InstOpen, text);
    var indices: seq<int> := found + [|text| - 1];
    affiliations := CutsLoop(text, indices);
  }

  /** The loop of `_find_affiliations` over consecutive cut points. */
  method CutsLoop(text: string, indices: seq<int>) returns (affiliations: seq<RefAffiliation>)
    requires |indices| >= 1
    ensures affiliations == FlatMap(Cuts(text, indices), InstAffiliation)
  {
    ghost var parts := Cuts(text, indices);
    affiliations := [];
    var i := 0;
    while i < |indices| - 1
      invariant 0 <= i <= |parts|
      invariant affiliations == FlatMap(parts[..i], InstAffiliation)
    {
      FlatMapStep(parts, InstAffiliation, i);
      var part := Slice(text, indices[i], indices[i + 1]);
      var found := InstTurn(part);
      affiliations := affiliations + found;
      i := i + 1;
    }
    assert parts[..|parts|] == parts;
  }

  /** One turn of the loop of `_find_affiliations`: the affiliation of one segment, if it has an `\inst{…}`. */
  method InstTurn(part: string) returns (found: seq<RefAffiliation>)
    ensures found == InstAffiliation(part)
  {
    found := [];
    var m := Search(InstContent, part);
    if m.Some? {
      var ref := Strip(Inner(m.value));
      var name := Delete(part, Text(part, m.value));
      found := [RefAffiliation(name, ref)];
    }
  }

  /**
    * Where `_find_affiliations` cuts: segment `k` runs from the `k`-th
    * `\inst{` (found case-insensitively) to the next one, and the last
    * segment ends one character before the end of the text. There is one
    * segment per `\inst{`.
    */
  lemma InstSegmentsCut(text: string)
    ensures var idx := AllIndices(InstOpen, text);
      var segs := InstSegments(text);
      |segs| == |idx| &&
      (forall k :: 0 <= k < |idx| - 1 ==> segs[k] == text[idx[k]..idx[k + 1]]) &&
      (|idx| > 0 ==> segs[|idx| - 1] == text[idx[|idx| - 1]..|text| - 1])
  {
    var idx := AllIndices(InstOpen, text);
    var segs := InstSegments(text);
    forall k | 0 <= k < |idx|
      ensures idx[k] + |InstOpen| <= |text|
    {
      assert OccursAt(Lower(text), Lower(InstOpen), idx[k]);
    }
    SegmentsCount(text, idx);
    forall k | 0 <= k < |idx| - 1
      ensures segs[k] == text[idx[k]..idx[k + 1]]
    {
      assert idx[k] + |InstOpen| <= idx[k + 1];
      SegmentAt(text, idx, k, idx[k + 1]);
    }
    if |idx| > 0 {
      SegmentAt(text, idx, |idx| - 1, |text| - 1);
    }
  }

  lemma SegmentsCount(text: string, idx: seq<nat>)
    requires idx == AllIndices(InstOpen, text)
    ensures |InstSegments(text)| == |idx|
  {
    assert InstBounds(text) == idx + [|text| - 1];
  }

  /** Segment `k` runs from cut point `k` to the next one, `next`. */
  lemma SegmentAt(text: string, idx: seq<nat>, k: nat, next: int)
    requires idx == AllIndices(InstOpen, text) && k < |idx|
    requires next == if k + 1 < |idx| then idx[k + 1] else |text| - 1
    requires idx[k] <= next <= |text|
    ensures |InstSegments(text)| == |idx|
    ensures InstSegments(text)[k] == text[idx[k]..next]
  {
    var b := InstBounds(text);
    assert b == idx + [|text| - 1];
    assert b[k] == idx[k] && b[k + 1] == next;
  }

  /**
    * An affiliation `_find_affiliations` reports comes from the first
    * `\inst{…}` of one segment: the reference is its stripped content and the
    * name the segment without it; segments with no `\inst{…}` give nothing,
    * so there are at most as many affiliations as segments.
    */
  lemma FindAffiliationsFrom(text: string, f: RefAffiliation)
    ensures |FindAffiliations(text)| <= |InstSegments(text)|
    ensures var segs := InstSegments(text);
      f in FindAffiliations(text) <==>
        exists k :: 0 <= k < |segs| && Search(InstContent, segs[k]).Some? &&
          var m := Search(InstContent, segs[k]).value;
          f == RefAffiliation(Delete(segs[k], Text(segs[k], m)), Strip(Inner(m)))
  {
    SegmentsAffiliations(InstSegments(text), f);
  }

  lemma SegmentsAffiliations(segs: seq<string>, f: RefAffiliation)
    ensures |FlatMap(segs, InstAffiliation)| <= |segs|
    ensures f in FlatMap(segs, InstAffiliation) <==>
        exists k :: 0 <= k < |segs| && Search(InstContent, segs[k]).Some? &&
          var m := Search(InstContent, segs[k]).value;
          f == RefAffiliation(Delete(segs[k], Text(segs[k], m)), Strip(Inner(m)))
  {
    FlatMapAtMostOne(segs, InstAffiliation);
    FlatMapIn(segs, InstAffiliation, f);
    forall k | 0 <= k < |segs|
      ensures f in InstAffiliation(segs[k]) <==> (Search(InstContent, segs[k]).Some? &&
        var m := Search(InstContent, segs[k]).value;
        f == RefAffiliation(Delete(segs[k], Text(segs[k], m)), Strip(Inner(m))))
    {
    }
  }

  // ----------------------------------------------------------------------
  // `NameAffil.extract`
  // ----------------------------------------------------------------------

  /** The first `\name{…}` replaced by its stripped content; the text as it is without one. */
  function Unwrapped(c: string): string {
    match Search(NameContent, c)
    case None => c
    case Some(m) => c[..m.start] + Strip(Inner(m)) + c[m.end..]
  }

  function NameAffilText(content: string): string {
    Unwrapped(Strip(Unbraced(content)))
  }

  /** The names of one `NAME_AFFIL` match: its stripped name part, split at the separators. */
  function AffilNamesOf(split: string -> seq<string>): Match -> seq<string> {
    (m: Match) => split(Strip(m.g1))
  }

  /** The affiliation of one `NAME_AFFIL` match: its brace content, sanitized but not stripped first. */
  function AffilAffiliationOf(san: string -> string): Match -> string {
    (m: Match) => san(Slice(m.g2, 1, -1))
  }

  function NameAffilSpec(P: Patterns, san: string -> string, split: string -> seq<string>, content: string): seq<Author> {
    FlatMap(FindIter(P.nameAffil, NameAffilText(content)), SharedOf(san, AffilNamesOf(split), AffilAffiliationOf(san)))
  }

  /** `NameAffil.extract`. */
  method NameAffilExtract(P: Patterns, san: string -> string, split: string -> seq<string>, content: string)
    returns (r: seq<Author>)
    ensures r == NameAffilSpec(P, san, split, content)
  {
    var c := Strip(Slice(content, 1, -1));
    var m := Search(NameContent, c);
    if m.Some? {
      c := c[..m.value.start] + Strip(Slice(m.value.g1, 1, -1)) + c[m.value.end..];
    }
    assert c == NameAffilText(content);
    r := SharedEach(san, AffilNamesOf(split), AffilAffiliationOf(san), FindIter(P.nameAffil, c));
  }

  /**
    * `NameAffil` unwraps only the first `\name{…}`: the text before it and
    * after it is kept as it is, and a content without one is read unchanged.
    */
  lemma UnwrapsFirstName(c: string)
    ensures Search(NameContent, c).None? ==> Unwrapped(c) == c
    ensures Search(NameContent, c).Some? ==>
      var m := Search(NameContent, c).value;
      NoneIn(NameContent, c, 0, m.start) &&
      Unwrapped(c)[..m.start] == c[..m.start] &&
      Unwrapped(c)[|Unwrapped(c)| - (|c| - m.end)..] == c[m.end..]
  {
    match Search(NameContent, c) {
      case None =>
      case Some(m) =>
        var u := c[..m.start] + Strip(Inner(m)) + c[m.end..];
        assert Unwrapped(c) == u;
        assert u[..m.start] == c[..m.start];
        assert u[|u| - (|c| - m.end)..] == c[m.end..];
    }
  }

  /**
    * Every author `NameAffil` produces is one name of the stripped name part
    * of some match, carrying that match's sanitized brace content as its
    * only affiliation; and every such name gives an author.
    */
  lemma NameAffilShares(P: Patterns, san: string -> string, split: string -> seq<string>, content: string, a: Author)
    ensures OneAffiliationEach(NameAffilSpec(P, san, split, content))
    ensures var ms := FindIter(P.nameAffil, NameAffilText(content));
      a in NameAffilSpec(P, san, split, content) <==>
        exists k, j :: 0 <= k < |ms| && 0 <= j < |split(Strip(ms[k].g1))| &&
          a == Author(san(split(Strip(ms[k].g1))[j]), [san(Slice(ms[k].g2, 1, -1))])
  {
    var ms := FindIter(P.nameAffil, NameAffilText(content));
    SharedEachIn(san, AffilNamesOf(split), AffilAffiliationOf(san), ms, a);
  }

  // ----------------------------------------------------------------------
  // `AffilRefInst.extract`
  // ----------------------------------------------------------------------

  /** One `NAME_AFFIL` match as an author: the raw name, and the `\affil{…}` content as a list of references. */
  function RefInstAuthor(m: Match): RefAuthor {
    RefAuthor(m.g1, SplitRefStrings(Strip(Slice(m.g2, 1, -1))))
  }

  function AffilRefInstSpec(P: Patterns, san: string -> string, content: string): seq<Author> {
    var c := P.joinMulti(AffilMulti, content);
    Joined(san, Map(FindIter(P.nameAffil, c), RefInstAuthor), FindAffiliations(c))
  }

  /** `AffilRefInst.extract`. */
  method AffilRefInstExtract(P: Patterns, san: string -> string, content: string) returns (r: seq<Author>)
    ensures r == AffilRefInstSpec(P, san, content)
  {
    var c := P.joinMulti(AffilMulti, content);
    var authors := RefInstAuthors(P, c);
    var affiliations := FindAffiliationsLoop(c);
    r := JoinAuthorAndAffilById(san, authors, affiliations);
  }

  /** The loop over the `NAME_AFFIL` matches of `AffilRefInst.extract`. */
  method RefInstAuthors(P: Patterns, c: string) returns (authors: seq<RefAuthor>)
    ensures authors == Map(FindIter(P.nameAffil, c), RefInstAuthor)
  {
    var ms := FindIter(P.nameAffil, c);
    authors := [];
    var i := 0;
    while i < |ms|
      invariant 0 <= i <= |ms|
      invariant authors == Map(ms[..i], RefInstAuthor)
    {
      MapStep(ms, RefInstAuthor, i);
      var ref := Strip(Slice(ms[i].g2, 1, -1));
      authors := authors + [RefAuthor(ms[i].g1, SplitRefStrings(ref))];
      i := i + 1;
    }
    assert ms[..|ms|] == ms;
  }

  /**
    * `AffilRefInst` reads the `\affil{…}` of each name as a list of
    * references: author `i` is match `i`, and it gets exactly the
    * `\inst{…}` affiliations whose reference is in that list.
    */
  lemma AffilRefInstAuthors(P: Patterns, san: string -> string, content: string, i: nat, x: string)
    ensures var c := P.joinMulti(AffilMulti, content);
      var ms := FindIter(P.nameAffil, c);
      var affs := FindAffiliations(c);
      var r := AffilRefInstSpec(P, san, content);
      |r| == |ms| &&
      (i < |ms| ==>
        r[i].name == san(ms[i].g1) &&
        (x in r[i].affiliations <==>
          exists j :: 0 <= j < |affs| && x == san(affs[j].name) && x != "" &&
            affs[j].refId in SplitRefStrings(Strip(Slice(ms[i].g2, 1, -1)))))
  {
    var c := P.joinMulti(AffilMulti, content);
    var ms := FindIter(P.nameAffil, c);
    var authors := Map(ms, RefInstAuthor);
    var affs := FindAffiliations(c);
    assert AffilRefInstSpec(P, san, content) == Joined(san, authors, affs);
    MapAt(ms, RefInstAuthor);
    if i < |ms| {
      JoinedAuthors(san, authors, affs, i, x);
    }
  }

  // ----------------------------------------------------------------------
  // `AffilMath.extract`
  // ----------------------------------------------------------------------

  /** The content without braces, with repeated math references joined. */
  function AffilMathText(P: Patterns, content: string): string {
    P.joinMulti(MathModeMulti, Strip(Unbraced(content)))
  }

  /**
    * `AffilMath.extract`: the math references inside every `\affil{…}` are
    * the affiliations, and the authors are the math references of what is
    * left once those are deleted.
    */
  function AffilMathSpec(P: Patterns, san: string -> string, content: string): seq<Author> {
    AffiliationScheme.CmdMathJoined(P, san, AffilContent, AffilMathText(P, content))
  }

  /** `AffilMath.extract`. */
  method AffilMathExtract(P: Patterns, san: string -> string, content: string) returns (r: seq<Author>)
    ensures r == AffilMathSpec(P, san, content)
  {
    var c := AffilMathText(P, content);
    r := AffiliationScheme.CmdMathExtract(P, san, AffilContent, c);
  }
}
