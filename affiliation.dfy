/**
  * The `\affiliation` schemes: names followed by an `\affiliation{…}`
  * (`NameAffiliation`), names and `\affiliation{…}`s carrying math-mode
  * references (`AffiliationMath`), and a name part and an affiliation part
  * split by `\affiliations` (`Affiliations`).
  */
module AffiliationScheme {
  import opened PyStr
  import opened Regex
  import opened RegExp
  import opened Patterns
  import opened Authors
  import opened CmdUtil
  import opened Scheme
  import Latex

  // ----------------------------------------------------------------------
  // Validators
  // ----------------------------------------------------------------------

  /** `NameAffiliation.validate`. */
  predicate NameAffiliationValid(content: string) {
    if Has(content, "\\sup") || Has(content, "\\authorname") then false
    else if Has(content, "\\affiliations") then false
    else Has(content, "\\affiliation")
  }

  /** `AffiliationMath.validate`. */
  predicate AffiliationMathValid(content: string) {
    if Has(content, "\\sup") || Has(content, "\\authorname") then false
    else if Has(content, "\\affiliations") then false
    else if !Has(content, "\\affiliation") then false
    else MathRefs(content) != 0
  }

  /** `Affiliations.validate`. */
  predicate AffiliationsValid(content: string) {
    Has(content, "\\affiliations")
  }

  /**
    * `AffiliationMath` accepts only what `NameAffiliation` accepts, both
    * refuse `\sup` and `\authorname`, and `Affiliations` accepts exactly the
    * contents holding `\affiliations`, which the other two refuse, while
    * such a content always holds `\affiliation` as well.
    */
  lemma AffiliationValidators(content: string)
    ensures AffiliationMathValid(content) ==> NameAffiliationValid(content) && MathRefs(content) > 0
    ensures NameAffiliationValid(content) ==> !Has(content, "\\sup") && !Has(content, "\\authorname")
    ensures AffiliationsValid(content) ==> !NameAffiliationValid(content) && !AffiliationMathValid(content)
    ensures AffiliationsValid(content) ==> Has(content, "\\affiliation")
  {
    if AffiliationsValid(content) {
      assert "\\affiliation" + "s" == "\\affiliations";
      ContainsPrefixOf(Lower(content), "\\affiliation", "s");
    }
  }

  // ----------------------------------------------------------------------
  // `NameAffiliation.extract`
  // ----------------------------------------------------------------------

  /** The content without braces, newlines and repeated `\affiliation`s. */
  function NameAffiliationText(P: Patterns, content: string): string {
    P.joinMulti(AffiliationMulti, Latex.RemoveLatexNewlines(Strip(Unbraced(content))))
  }

  /** The names of one `NAME_AFFILIATION` match: its name part, split at the separators. */
  function MatchNamesOf(split: string -> seq<string>): Match -> seq<string> {
    (m: Match) => split(m.g1)
  }

  /** The sanitized affiliation of one `NAME_AFFILIATION` match: its brace content, stripped. */
  function MatchAffiliationOf(san: string -> string): Match -> string {
    (m: Match) => san(Strip(Slice(m.g2, 1, -1)))
  }

  function NameAffiliationSpec(P: Patterns, san: string -> string, split: string -> seq<string>, content: string): seq<Author> {
    FlatMap(FindIter(P.nameAffiliation, NameAffiliationText(P, content)), SharedOf(san, MatchNamesOf(split), MatchAffiliationOf(san)))
  }

  /** `NameAffiliation.extract`. */
  method NameAffiliationExtract(P: Patterns, san: string -> string, split: string -> seq<string>, content: string)
    returns (r: seq<Author>)
    ensures r == NameAffiliationSpec(P, san, split, content)
  {
    var c := NameAffiliationText(P, content);
    r := SharedEach(san, MatchNamesOf(split), MatchAffiliationOf(san), FindIter(P.nameAffiliation, c));
  }

  /**
    * Every author `NameAffiliation` produces is one name of the name part of
    * some match, carrying that match's stripped and sanitized brace content
    * as its only affiliation; and every such name gives an author.
    */
  lemma NameAffiliationShares(P: Patterns, san: string -> string, split: string -> seq<string>, content: string, a: Author)
    ensures OneAffiliationEach(NameAffiliationSpec(P, san, split, content))
    ensures var ms := FindIter(P.nameAffiliation, NameAffiliationText(P, content));
      a in NameAffiliationSpec(P, san, split, content) <==>
        exists k, j :: 0 <= k < |ms| && 0 <= j < |split(ms[k].g1)| &&
          a == Author(san(split(ms[k].g1)[j]), [san(Strip(Slice(ms[k].g2, 1, -1)))])
  {
    var ms := FindIter(P.nameAffiliation, NameAffiliationText(P, content));
    SharedEachIn(san, MatchNamesOf(split), MatchAffiliationOf(san), ms, a);
  }

  // ----------------------------------------------------------------------
  // Math-mode references
  // ----------------------------------------------------------------------

  /** `{"name": n.group("name"), "ref_id": n.group("ref_id").strip("$^{} ")}` for a `MATH_AFFILIATION` match. */
  function MathRefAffiliation(n: Match): RefAffiliation {
    RefAffiliation(n.g1, StripChars(n.g2, MathTrim))
  }

  /** Every `MATH_AFFILIATION` match of a text, none of them skipped. */
  function MathAffiliationsOfText(P: Patterns, text: string): seq<RefAffiliation> {
    Map(FindIter(P.mathAffiliation, text), MathRefAffiliation)
  }

  function MathAffiliationsOfTextOf(P: Patterns): string -> seq<RefAffiliation> {
    (text: string) => MathAffiliationsOfText(P, text)
  }

  /** The inner loop over the `MATH_AFFILIATION` matches of one text. */
  method MathAffiliationsIn(P: Patterns, text: string) returns (affiliations: seq<RefAffiliation>)
    ensures affiliations == MathAffiliationsOfText(P, text)
  {
    var ms := FindIter(P.mathAffiliation, text);
    affiliations := [];
    var i := 0;
    while i < |ms|
      invariant 0 <= i <= |ms|
      invariant affiliations == Map(ms[..i], MathRefAffiliation)
    {
      MapStep(ms, MathRefAffiliation, i);
      affiliations := affiliations + [RefAffiliation(ms[i].g1, StripChars(ms[i].g2, MathTrim))];
      i := i + 1;
    }
    assert ms[..|ms|] == ms;
  }

  /** An affiliation gathered from a list of texts comes from one math reference in one of them. */
  lemma MathAffiliationsFrom(P: Patterns, texts: seq<string>, f: RefAffiliation)
    ensures f in FlatMap(texts, MathAffiliationsOfTextOf(P)) <==>
      exists k, j :: 0 <= k < |texts| && 0 <= j < |FindIter(P.mathAffiliation, texts[k])| &&
        f == MathRefAffiliation(FindIter(P.mathAffiliation, texts[k])[j])
  {
    var g := MathAffiliationsOfTextOf(P);
    FlatMapIn(texts, g, f);
    forall k | 0 <= k < |texts| {
      MapAt(FindIter(P.mathAffiliation, texts[k]), MathRefAffiliation);
    }
    if f in FlatMap(texts, g) {
      var k :| 0 <= k < |texts| && f in g(texts[k]);
      var j :| 0 <= j < |g(texts[k])| && g(texts[k])[j] == f;
      assert 0 <= j < |FindIter(P.mathAffiliation, texts[k])|;
    }
    if exists k, j :: 0 <= k < |texts| && 0 <= j < |FindIter(P.mathAffiliation, texts[k])| &&
        f == MathRefAffiliation(FindIter(P.mathAffiliation, texts[k])[j]) {
      var k, j :| 0 <= k < |texts| && 0 <= j < |FindIter(P.mathAffiliation, texts[k])| &&
        f == MathRefAffiliation(FindIter(P.mathAffiliation, texts[k])[j]);
      assert g(texts[k])[j] == f;
    }
  }

  // ----------------------------------------------------------------------
  // `AffiliationMath.extract`
  // ----------------------------------------------------------------------

  /** The content without braces and newlines, with repeated math references and `\affiliation`s joined. */
  function AffiliationMathText(P: Patterns, content: string): string {
    P.joinMulti(AffiliationMulti, P.joinMulti(MathModeMulti, Latex.RemoveLatexNewlines(Strip(Unbraced(content)))))
  }

  /** The math references inside one command, read from its stripped brace content. */
  function BodyRefs(P: Patterns, m: Match): seq<RefAffiliation> {
    MathAffiliationsOfText(P, Strip(Inner(m)))
  }

  function BodyRefsOf(P: Patterns): Match -> seq<RefAffiliation> {
    (m: Match) => BodyRefs(P, m)
  }

  /** The affiliations: the math references inside every command `cmd` matches. */
  function CmdMathAffiliations(P: Patterns, cmd: MatchAt, c: string): seq<RefAffiliation> {
    FlatMap(FindIter(cmd, c), BodyRefsOf(P))
  }

  /** The text the authors are read from: every command `cmd` matches deleted. */
  function WithoutCmds(cmd: MatchAt, c: string): string {
    DeleteAll(c, Map(FindIter(cmd, c), TextOf(c)))
  }

  /**
    * Authors read from the math references of the text without the
    * commands `cmd` matches, joined by id to the math references inside
    * those commands.
    */
  function CmdMathJoined(P: Patterns, san: string -> string, cmd: MatchAt, c: string): seq<Author> {
    Joined(san, Map(FindIter(P.mathAuthorRef, WithoutCmds(cmd, c)), MathRefAuthor), CmdMathAffiliations(P, cmd, c))
  }

  /** The two loops and the join that `AffiliationMath.extract` and `AffilMath.extract` share. */
  method CmdMathExtract(P: Patterns, san: string -> string, cmd: MatchAt, c: string) returns (r: seq<Author>)
    ensures r == CmdMathJoined(P, san, cmd, c)
  {
    var rest, affiliations := CmdMathLoop(P, cmd, c);
    var authors := MathRefAuthorsIn(P, rest);
    r := JoinAuthorAndAffilById(san, authors, affiliations);
  }

  function AffiliationMathSpec(P: Patterns, san: string -> string, content: string): seq<Author> {
    CmdMathJoined(P, san, AffiliationContent, AffiliationMathText(P, content))
  }

  /** `AffiliationMath.extract`. */
  method AffiliationMathExtract(P: Patterns, san: string -> string, content: string) returns (r: seq<Author>)
    ensures r == AffiliationMathSpec(P, san, content)
  {
    var c := AffiliationMathText(P, content);
    r := CmdMathExtract(P, san, AffiliationContent, c);
  }

  /**
    * The command loop of `AffiliationMath.extract` and `AffilMath.extract`.
    * It iterates over the matches in the text as it was before the loop,
    * deleting each one's text from the running copy.
    */
  method CmdMathLoop(P: Patterns, cmd: MatchAt, c: string) returns (rest: string, affiliations: seq<RefAffiliation>)
    ensures rest == WithoutCmds(cmd, c)
    ensures affiliations == CmdMathAffiliations(P, cmd, c)
  {
    var ms := FindIter(cmd, c);
    rest := c;
    affiliations := [];
    var i := 0;
    while i < |ms|
      invariant 0 <= i <= |ms|
      invariant rest == DeleteAll(c, Map(ms[..i], TextOf(c)))
      invariant affiliations == FlatMap(ms[..i], BodyRefsOf(P))
    {
      RemovedStep(c, ms, i);
      FlatMapStep(ms, BodyRefsOf(P), i);
      rest := Delete(rest, Text(c, ms[i]));
      var found := MathAffiliationsIn(P, Strip(Inner(ms[i])));
      affiliations := affiliations + found;
      i := i + 1;
    }
    assert ms[..|ms|] == ms;
  }

  /** The affiliations come only from inside the commands `cmd` matches, one per math reference there. */
  lemma CmdMathAffiliationsFrom(P: Patterns, cmd: MatchAt, c: string, f: RefAffiliation)
    ensures var ms := FindIter(cmd, c);
      f in CmdMathAffiliations(P, cmd, c) <==>
        exists k, j :: 0 <= k < |ms| && 0 <= j < |FindIter(P.mathAffiliation, Strip(Inner(ms[k])))| &&
          f == MathRefAffiliation(FindIter(P.mathAffiliation, Strip(Inner(ms[k])))[j])
  {
    var ms := FindIter(cmd, c);
    var g := BodyRefsOf(P);
    FlatMapIn(ms, g, f);
    forall k | 0 <= k < |ms|
      ensures f in g(ms[k]) <==>
        exists j :: 0 <= j < |FindIter(P.mathAffiliation, Strip(Inner(ms[k])))| &&
          f == MathRefAffiliation(FindIter(P.mathAffiliation, Strip(Inner(ms[k])))[j])
    {
      BodyRefsIn(P, ms[k], f);
    }
  }

  /** A command body gives an affiliation iff one of its math references makes it. */
  lemma BodyRefsIn(P: Patterns, m: Match, f: RefAffiliation)
    ensures f in BodyRefsOf(P)(m) <==>
      exists j :: 0 <= j < |FindIter(P.mathAffiliation, Strip(Inner(m)))| &&
        f == MathRefAffiliation(FindIter(P.mathAffiliation, Strip(Inner(m)))[j])
  {
    var xs := FindIter(P.mathAffiliation, Strip(Inner(m)));
    assert BodyRefsOf(P)(m) == Map(xs, MathRefAffiliation);
    MapIn(xs, MathRefAffiliation, f);
  }

  /**
    * Every author is a math reference of the text left once the commands
    * are deleted, in order, attached to exactly the affiliations whose id
    * it cites.
    */
  lemma CmdMathAuthors(P: Patterns, san: string -> string, cmd: MatchAt, c: string, i: nat, x: string)
    ensures var ns := FindIter(P.mathAuthorRef, WithoutCmds(cmd, c));
      var affs := CmdMathAffiliations(P, cmd, c);
      var r := CmdMathJoined(P, san, cmd, c);
      |r| == |ns| &&
      (i < |ns| ==>
        r[i].name == san(ns[i].g1) &&
        (x in r[i].affiliations <==>
          exists j :: 0 <= j < |affs| && x == san(affs[j].name) && x != "" && affs[j].refId in MathRefAuthor(ns[i]).refIds))
  {
    var ns := FindIter(P.mathAuthorRef, WithoutCmds(cmd, c));
    var authors := Map(ns, MathRefAuthor);
    var affs := CmdMathAffiliations(P, cmd, c);
    MapAt(ns, MathRefAuthor);
    if i < |ns| {
      JoinedAuthors(san, authors, affs, i, x);
    }
  }

  // ----------------------------------------------------------------------
  // `Affiliations.extract`
  // ----------------------------------------------------------------------

  const AffiliationsSep: string := "\\affiliations"

  /** The content split at each `\affiliations`, once math references are joined. */
  function AffiliationsParts(P: Patterns, content: string): (parts: seq<string>)
    ensures |parts| >= 1
  {
    Split(P.joinMulti(MathModeMulti, Strip(Unbraced(content))), AffiliationsSep)
  }

  /** Authors from the first part, affiliations from every later part. */
  function AffiliationsSpec(P: Patterns, san: string -> string, content: string): seq<Author> {
    var parts := AffiliationsParts(P, content);
    Joined(san, Map(FindIter(P.mathAuthorRef, parts[0]), MathRefAuthor), FlatMap(parts[1..], MathAffiliationsOfTextOf(P)))
  }

  /** `Affiliations.extract`. */
  method AffiliationsExtract(P: Patterns, san: string -> string, content: string) returns (r: seq<Author>)
    ensures r == AffiliationsSpec(P, san, content)
  {
    var parts := AffiliationsParts(P, content);
    var authors := MathRefAuthorsIn(P, parts[0]);
    var affiliations: seq<RefAffiliation> := [];
    var rest := parts[1..];
    var i := 0;
    while i < |rest|
      invariant 0 <= i <= |rest|
      invariant affiliations == FlatMap(rest[..i], MathAffiliationsOfTextOf(P))
    {
      FlatMapStep(rest, MathAffiliationsOfTextOf(P), i);
      var found := MathAffiliationsIn(P, rest[i]);
      affiliations := affiliations + found;
      i := i + 1;
    }
    assert rest[..|rest|] == rest;
    r := JoinAuthorAndAffilById(san, authors, affiliations);
  }

  /**
    * Where `Affiliations` splits: the first part is the text before the
    * first `\affiliations` (all of it when there is none) and holds no
    * `\affiliations`; the later parts, joined back, are exactly the text
    * after that first `\affiliations`, and there are none without one.
    */
  lemma AffiliationsSplitAtFirst(c: string)
    ensures var parts := Split(c, AffiliationsSep);
      var i := Find(c, AffiliationsSep);
      !Contains(parts[0], AffiliationsSep) &&
      (i == -1 ==> parts == [c]) &&
      (i != -1 ==> parts[0] == c[..i] && |parts| >= 2 && Join(parts[1..], AffiliationsSep) == c[i + |AffiliationsSep|..])
  {
    SplitAtFirst(c, AffiliationsSep);
  }

  /** `Affiliations` gives one author per math reference of the first part, in order. */
  lemma AffiliationsAuthorsFromFirst(P: Patterns, san: string -> string, content: string)
    ensures var first := AffiliationsParts(P, content)[0];
      var r := AffiliationsSpec(P, san, content);
      |r| == |FindIter(P.mathAuthorRef, first)| &&
      forall k :: 0 <= k < |r| ==> r[k].name == san(FindIter(P.mathAuthorRef, first)[k].g1)
  {
    var parts := AffiliationsParts(P, content);
    var ns := FindIter(P.mathAuthorRef, parts[0]);
    var authors := Map(ns, MathRefAuthor);
    var affs := FlatMap(parts[1..], MathAffiliationsOfTextOf(P));
    assert AffiliationsSpec(P, san, content) == Joined(san, authors, affs);
    forall k | 0 <= k < |authors| {
      JoinedAuthors(san, authors, affs, k, "");
    }
    MapAt(ns, MathRefAuthor);
  }

  /** `Affiliations` takes its affiliations from the later parts only, one per math reference there. */
  lemma AffiliationsFromRest(P: Patterns, content: string, f: RefAffiliation)
    ensures var rest := AffiliationsParts(P, content)[1..];
      f in FlatMap(rest, MathAffiliationsOfTextOf(P)) <==>
        exists k, j :: 0 <= k < |rest| && 0 <= j < |FindIter(P.mathAffiliation, rest[k])| &&
          f == MathRefAffiliation(FindIter(P.mathAffiliation, rest[k])[j])
  {
    MathAffiliationsFrom(P, AffiliationsParts(P, content)[1..], f);
  }
}
