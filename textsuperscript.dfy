/**
  * The `\textsuperscript{…}` schemes: authors followed by
  * `\textsuperscript{ids}` and affiliations preceded by one, either in the
  * same text, as `\textsuperscript{id}{affiliation}`, or inside
  * `\name{…}` and `\affil{…}`.
  */
module TextSuperScriptScheme {
  import opened PyStr
  import opened Regex
  import opened RegExp
  import opened Patterns
  import opened CmdUtil
  import opened Scheme
  import opened Authors
  import MathModeScheme

  // ----------------------------------------------------------------------
  // Validators
  // ----------------------------------------------------------------------

  /** `cmd_content.lower().count(r"\textsuperscript")`. */
  function TsCount(content: string): nat {
    Count(Lower(content), "\\textsuperscript")
  }

  /** `AuthorTextSuperScript.validate`. */
  predicate AuthorTextSuperScriptValid(content: string) {
    Has(content, "\\textsuperscript") && TsCount(content) >= 2
  }

  /** `AuthorDoubleTextSuperScript.validate`. */
  predicate AuthorDoubleTextSuperScriptValid(P: Patterns, content: string) {
    Has(content, "\\textsuperscript") && TsCount(content) > 2 && Search(P.doubleTsShape, Lower(content)).Some?
  }

  /** `AuthorTextSuperScriptNameAffil.validate`. */
  predicate AuthorTextSuperScriptNameAffilValid(content: string) {
    Has(content, "\\textsuperscript") && TsCount(content) > 2 && Has(content, "\\name") && Has(content, "\\affil{")
  }

  /**
    * The presence test of `AuthorTextSuperScript.validate` is implied by
    * its count test, so the scheme accepts exactly the commands with at
    * least two `\textsuperscript`; the other two schemes need more than
    * two, so whatever they accept it accepts too.
    */
  lemma TextSuperScriptValidators(P: Patterns, content: string)
    ensures AuthorTextSuperScriptValid(content) <==> TsCount(content) >= 2
    ensures AuthorDoubleTextSuperScriptValid(P, content) ==> AuthorTextSuperScriptValid(content)
    ensures AuthorTextSuperScriptNameAffilValid(content) ==>
      AuthorTextSuperScriptValid(content) && Has(content, "\\name") && Has(content, "\\affil{")
  {
    CountPositiveIffContains(Lower(content), "\\textsuperscript");
  }

  // ----------------------------------------------------------------------
  // _find_authors and _find_affiliations
  // ----------------------------------------------------------------------

  /** `m.group("ref")[1:-1].strip()`: the reference without its braces. */
  function RefOf(m: Match): string {
    Strip(Slice(m.g2, 1, -1))
  }

  /** The name without a leading `and ` (in any case). */
  function WithoutAnd(name: string): string {
    if StartsWith(Lower(name), "and ") then name[4..] else name
  }

  /** `[s for id in ref.split(",") if len(s := id.strip()) > 0]`. */
  function RefIds(ref: string): (r: seq<string>)
    ensures forall id :: id in r ==> id != "" && Trimmed(id)
  {
    NonEmptyStripped(Split(ref, ","))
  }

  /** What one `AUTHOR_TEXTSUPERSCRIPT` match contributes to `_find_authors`. */
  function TsMatchAuthor(san: string -> string, m: Match): seq<RefAuthor> {
    if m.g1 == "" || RefOf(m) == "" then []
    else [RefAuthor(san(WithoutAnd(m.g1)), RefIds(RefOf(m)))]
  }

  function TsMatchAuthorOf(san: string -> string): Match -> seq<RefAuthor> {
    (m: Match) => TsMatchAuthor(san, m)
  }

  /** `_find_authors`. */
  function FindAuthors(P: Patterns, san: string -> string, content: string): seq<RefAuthor> {
    FlatMap(FindIter(P.authorTextsuperscript, content), TsMatchAuthorOf(san))
  }

  /** What one match contributes to `_find_affiliations`. */
  function TsMatchAffiliation(san: string -> string, m: Match): seq<RefAffiliation> {
    if Strip(m.g1) == "" || RefOf(m) == "" then []
    else [RefAffiliation(san(Strip(m.g1)), RefOf(m))]
  }

  function TsMatchAffiliationOf(san: string -> string): Match -> seq<RefAffiliation> {
    (m: Match) => TsMatchAffiliation(san, m)
  }

  /** `_find_affiliations(pattern, ·)`. */
  function FindAffiliations(pattern: MatchAt, san: string -> string, content: string): seq<RefAffiliation> {
    FlatMap(FindIter(pattern, content), TsMatchAffiliationOf(san))
  }

  /** `_find_authors`. */
  method FindAuthorsLoop(P: Patterns, san: string -> string, content: string) returns (authors: seq<RefAuthor>)
    ensures authors == FindAuthors(P, san, content)
  {
    var ms := FindIter(P.authorTextsuperscript, content);
    authors := [];
    var i := 0;
    while i < |ms|
      invariant 0 <= i <= |ms|
      invariant authors == FlatMap(ms[..i], TsMatchAuthorOf(san))
    {
      FlatMapStep(ms, TsMatchAuthorOf(san), i);
      var found := TsAuthorTurn(san, ms[i]);
      authors := authors + found;
      i := i + 1;
    }
    assert ms[..|ms|] == ms;
  }

  /** One turn of the loop of `_find_authors`. */
  method TsAuthorTurn(san: string -> string, m: Match) returns (found: seq<RefAuthor>)
    ensures found == TsMatchAuthor(san, m)
  {
    found := [];
    var name := m.g1;
    var ref := Strip(Slice(m.g2, 1, -1));
    if name != "" && ref != "" {
      var refIds := NonEmptyStripped(Split(ref, ","));
      if StartsWith(Lower(name), "and ") {
        name := name[4..];
      }
      found := [RefAuthor(san(name), refIds)];
    }
  }

  /** `_find_affiliations`. */
  method FindAffiliationsLoop(pattern: MatchAt, san: string -> string, content: string)
    returns (affiliations: seq<RefAffiliation>)
    ensures affiliations == FindAffiliations(pattern, san, content)
  {
    var ms := FindIter(pattern, content);
    affiliations := [];
    var i := 0;
    while i < |ms|
      invariant 0 <= i <= |ms|
      invariant affiliations == FlatMap(ms[..i], TsMatchAffiliationOf(san))
    {
      FlatMapStep(ms, TsMatchAffiliationOf(san), i);
      var found := TsAffiliationTurn(san, ms[i]);
      affiliations := affiliations + found;
      i := i + 1;
    }
    assert ms[..|ms|] == ms;
  }

  /** One turn of the loop of `_find_affiliations`. */
  method TsAffiliationTurn(san: string -> string, m: Match) returns (found: seq<RefAffiliation>)
    ensures found == TsMatchAffiliation(san, m)
  {
    found := [];
    var name := Strip(m.g1);
    var ref := Strip(Slice(m.g2, 1, -1));
    if name != "" && ref != "" {
      found := [RefAffiliation(san(name), ref)];
    }
  }

  /**
    * Every author `_find_authors` reports comes from a match with a
    * non-empty name and reference; its name is that match's name, a leading
    * `and ` removed, and its ids are non-empty and stripped.
    */
  lemma FoundAuthorsFrom(P: Patterns, san: string -> string, content: string, a: RefAuthor)
    requires a in FindAuthors(P, san, content)
    ensures exists m :: (m in FindIter(P.authorTextsuperscript, content) &&
      m.g1 != "" && RefOf(m) != "" && a == RefAuthor(san(WithoutAnd(m.g1)), RefIds(RefOf(m))))
    ensures forall id :: id in a.refIds ==> id != "" && Trimmed(id)
  {
    var ms := FindIter(P.authorTextsuperscript, content);
    FlatMapIn(ms, TsMatchAuthorOf(san), a);
    var k :| 0 <= k < |ms| && a in TsMatchAuthor(san, ms[k]);
    TsMatchAuthorFrom(san, ms[k], a);
    assert ms[k] in ms;
  }

  lemma TsMatchAuthorFrom(san: string -> string, m: Match, a: RefAuthor)
    requires a in TsMatchAuthor(san, m)
    ensures m.g1 != "" && RefOf(m) != "" && a == RefAuthor(san(WithoutAnd(m.g1)), RefIds(RefOf(m)))
  {
  }

  /** Every affiliation `_find_affiliations` reports has a non-empty stripped name and reference. */
  lemma FoundAffiliationsFrom(pattern: MatchAt, san: string -> string, content: string, f: RefAffiliation)
    requires f in FindAffiliations(pattern, san, content)
    ensures exists m :: (m in FindIter(pattern, content) &&
      Strip(m.g1) != "" && RefOf(m) != "" && f == RefAffiliation(san(Strip(m.g1)), RefOf(m)))
  {
    var ms := FindIter(pattern, content);
    FlatMapIn(ms, TsMatchAffiliationOf(san), f);
    var k :| 0 <= k < |ms| && f in TsMatchAffiliation(san, ms[k]);
    TsMatchAffiliationFrom(san, ms[k], f);
    assert ms[k] in ms;
  }

  lemma TsMatchAffiliationFrom(san: string -> string, m: Match, f: RefAffiliation)
    requires f in TsMatchAffiliation(san, m)
    ensures Strip(m.g1) != "" && RefOf(m) != "" && f == RefAffiliation(san(Strip(m.g1)), RefOf(m))
  {
  }

  // ----------------------------------------------------------------------
  // AuthorTextSuperScript.extract
  // ----------------------------------------------------------------------

  /** The characters `strip("$, ")` removes. */
  const TsMathTrim: set<char> := {'$', ',', ' '}

  /** `_sub_ts_math`: `\textsuperscript{x}` becomes `$^{x}$`, with `$`, `,` and spaces trimmed from `x`. */
  function SubTsMath(m: Match): string {
    "$^{" + StripChars(Inner(m), TsMathTrim) + "}$"
  }

  /**
    * The replacement is `$^{` and `}$` around a piece of the command's
    * content that neither starts nor ends with `$`, `,` or a space.
    */
  lemma SubTsMathShape(m: Match)
    ensures var x := StripChars(Inner(m), TsMathTrim);
      SubTsMath(m) == "$^{" + x + "}$" &&
      (x != [] ==> x[0] !in TsMathTrim && x[|x| - 1] !in TsMathTrim) &&
      exists i :: 0 <= i <= |Inner(m)| - |x| && IsSliceAt(Inner(m), x, i)
  {
  }

  /** The content with adjacent `\textsuperscript` joined and every `\textsuperscript{x}` rewritten as `$^{x}$`. */
  function TsAsMath(P: Patterns, content: string): string {
    var c := P.joinMulti(TextsuperscriptMulti, content);
    Sub(c, FindIter(TextsuperscriptContent, c), SubTsMath)
  }

  /** `AuthorTextSuperScript.extract`: the math-mode extraction of the rewritten content. */
  function AuthorTextSuperScriptSpec(P: Patterns, san: string -> string, content: string): seq<Author> {
    MathModeScheme.AuthorMathModeAffSpec(P, san, TsAsMath(P, content))
  }

  /** `AuthorTextSuperScript.extract`. */
  method AuthorTextSuperScriptExtract(P: Patterns, san: string -> string, content: string) returns (r: seq<Author>)
    ensures r == AuthorTextSuperScriptSpec(P, san, content)
  {
    var c := P.joinMulti(TextsuperscriptMulti, content);
    c := Sub(c, FindIter(TextsuperscriptContent, c), SubTsMath);
    r := MathModeScheme.AuthorMathModeAffExtract(P, san, c);
  }

  // ----------------------------------------------------------------------
  // AuthorDoubleTextSuperScript.extract
  // ----------------------------------------------------------------------

  function AuthorDoubleTextSuperScriptSpec(P: Patterns, san: string -> string, content: string): seq<Author> {
    var c := P.joinMulti(TextsuperscriptMulti, content);
    Joined(san, FindAuthors(P, san, c), FindAffiliations(P.doubleTsAff, san, c))
  }

  /** `AuthorDoubleTextSuperScript.extract`. */
  method AuthorDoubleTextSuperScriptExtract(P: Patterns, san: string -> string, content: string)
    returns (r: seq<Author>)
    ensures r == AuthorDoubleTextSuperScriptSpec(P, san, content)
  {
    var c := P.joinMulti(TextsuperscriptMulti, content);
    var authors := FindAuthorsLoop(P, san, c);
    var affiliations := FindAffiliationsLoop(P.doubleTsAff, san, c);
    r := JoinAuthorAndAffilById(san, authors, affiliations);
  }

  // ----------------------------------------------------------------------
  // AuthorTextSuperScriptNameAffil.extract
  // ----------------------------------------------------------------------

  /**
    * What one `\textsuperscript`-led piece of the `\affil{…}` content
    * contributes: the `AFFILIATION_TEXTSUPERSCRIPT` match's name and
    * reference, neither checked for emptiness; nothing without a match.
    */
  function AffilPartAffiliation(P: Patterns, san: string -> string, part: string): (r: seq<RefAffiliation>)
    ensures |r| <= 1
  {
    match Search(P.affTextsuperscript, part)
    case None => []
    case Some(m) => [RefAffiliation(san(m.g1), RefOf(m))]
  }

  function AffilPartAffiliationOf(P: Patterns, san: string -> string): string -> seq<RefAffiliation> {
    (part: string) => AffilPartAffiliation(P, san, part)
  }

  /** The `\textsuperscript`-led pieces of the stripped `\affil{…}` content. */
  function AffilParts(affilMatch: Match): seq<string> {
    SplitRefCommands("\\textsuperscript", Strip(Inner(affilMatch)))
  }

  /** `AuthorTextSuperScriptNameAffil.extract`: nothing without `\name{…}` or without `\affil{…}`. */
  function AuthorTextSuperScriptNameAffilSpec(P: Patterns, san: string -> string, content: string): seq<Author> {
    match (Search(NameContent, content), Search(AffilContent, content))
    case (Some(n), Some(a)) =>
      var nameContent := P.joinMulti(TextsuperscriptMulti, Strip(Inner(n)));
      Joined(san, FindAuthors(P, san, nameContent), FlatMap(AffilParts(a), AffilPartAffiliationOf(P, san)))
    case _ => []
  }

  /** `AuthorTextSuperScriptNameAffil.extract`. */
  method AuthorTextSuperScriptNameAffilExtract(P: Patterns, san: string -> string, content: string)
    returns (r: seq<Author>)
    ensures r == AuthorTextSuperScriptNameAffilSpec(P, san, content)
  {
    var namesMatch := Search(NameContent, content);
    if namesMatch.None? {
      return [];
    }
    var affilMatch := Search(AffilContent, content);
    if affilMatch.None? {
      return [];
    }
    var nameContent := Strip(Inner(namesMatch.value));
    nameContent := P.joinMulti(TextsuperscriptMulti, nameContent);
    var authors := FindAuthorsLoop(P, san, nameContent);
    var affiliations := AffilAffiliations(P, san, AffilParts(affilMatch.value));
    r := JoinAuthorAndAffilById(san, authors, affiliations);
  }

  /** The loop of `AuthorTextSuperScriptNameAffil.extract` over the `\affil{…}` pieces. */
  method AffilAffiliations(P: Patterns, san: string -> string, parts: seq<string>)
    returns (affiliations: seq<RefAffiliation>)
    ensures affiliations == FlatMap(parts, AffilPartAffiliationOf(P, san))
  {
    affiliations := [];
    var i := 0;
    while i < |parts|
      invariant 0 <= i <= |parts|
      invariant affiliations == FlatMap(parts[..i], AffilPartAffiliationOf(P, san))
    {
      FlatMapStep(parts, AffilPartAffiliationOf(P, san), i);
      var m := Search(P.affTextsuperscript, parts[i]);
      if m.Some? {
        var ref := Strip(Slice(m.value.g2, 1, -1));
        var name := m.value.g1;
        affiliations := affiliations + [RefAffiliation(san(name), ref)];
      }
      i := i + 1;
    }
    assert parts[..|parts|] == parts;
  }

  /**
    * Each `\textsuperscript`-led piece of `\affil{…}` gives at most one
    * affiliation, and without `\name{…}` or `\affil{…}` nothing is
    * extracted.
    */
  lemma NameAffilAtMostOnePerPiece(P: Patterns, san: string -> string, content: string)
    ensures Search(NameContent, content).None? || Search(AffilContent, content).None? ==>
      AuthorTextSuperScriptNameAffilSpec(P, san, content) == []
    ensures Search(AffilContent, content).Some? ==>
      var parts := AffilParts(Search(AffilContent, content).value);
      |FlatMap(parts, AffilPartAffiliationOf(P, san))| <= |parts|
  {
    if Search(AffilContent, content).Some? {
      FlatMapAtMostOne(AffilParts(Search(AffilContent, content).value), AffilPartAffiliationOf(P, san));
    }
  }
}
