/**
  * The `\footnote` schemes: authors carrying `\footnotemark[id]` with lines
  * `\footnotemark[id] affiliation`, and authors each followed by a
  * `\footnote{affiliation}`.
  */
module FootnoteScheme {
  import opened PyStr
  import opened Regex
  import opened RegExp
  import opened Patterns
  import opened Authors
  import opened CmdUtil
  import opened Scheme
  import Latex

  // ----------------------------------------------------------------------
  // FootnoteMark.validate
  // ----------------------------------------------------------------------

  function MarkOf(m: Match): string {
    m.g1
  }

  /** The `\footnotemark[…]` marks, brackets included, in order. */
  function Marks(content: string): seq<string> {
    Map(FindIter(FootnotemarkContent, content), MarkOf)
  }

  /** The dictionary the validator fills: each mark with the number of times it occurs. */
  function Tally(xs: seq<string>): (t: map<string, nat>)
    ensures forall x :: x in t <==> x in xs
    ensures forall x :: x in t ==> t[x] == multiset(xs)[x]
    decreases |xs|
  {
    if xs == [] then map[]
    else
      var n := |xs| - 1;
      var t := Tally(xs[..n]);
      assert xs == xs[..n] + [xs[n]];
      t[xs[n] := if xs[n] in t then t[xs[n]] + 1 else 1]
  }

  /**
    * `FootnoteMark.validate`: `\footnotemark` occurs (case-sensitively),
    * some mark is found, and no mark is counted fewer than twice.
    */
  predicate FootnoteMarkValid(content: string) {
    var refs := Tally(Marks(content));
    Contains(content, "\\footnotemark") && |refs| > 0 && forall r :: r in refs ==> refs[r] >= 2
  }

  /** `FootnoteMark.validate`. */
  method FootnoteMarkValidate(content: string) returns (ok: bool)
    ensures ok == FootnoteMarkValid(content)
  {
    if !Contains(content, "\\footnotemark") {
      return false;
    }
    var refs := CountMarks(FindIter(FootnotemarkContent, content));
    if |refs| == 0 {
      return false;
    }
    ok := AllAtLeastTwice(refs);
  }

  /** The first loop of `FootnoteMark.validate`: count each mark. */
  method CountMarks(ms: seq<Match>) returns (refs: map<string, nat>)
    ensures refs == Tally(Map(ms, MarkOf))
  {
    refs := map[];
    var i := 0;
    while i < |ms|
      invariant 0 <= i <= |ms|
      invariant refs == Tally(Map(ms[..i], MarkOf))
    {
      ghost var before := Map(ms[..i], MarkOf);
      MapStep(ms, MarkOf, i);
      TallySnoc(before, ms[i].g1);
      var ref := ms[i].g1;
      if ref !in refs {
        refs := refs[ref := 1];
      } else {
        refs := refs[ref := refs[ref] + 1];
      }
      assert refs == Tally(before + [ref]);
      i := i + 1;
    }
    assert ms[..|ms|] == ms;
  }

  lemma TallySnoc(xs: seq<string>, x: string)
    ensures Tally(xs + [x]) == Tally(xs)[x := if x in Tally(xs) then Tally(xs)[x] + 1 else 1]
  {
    assert (xs + [x])[..|xs|] == xs;
  }

  /** The second loop of `FootnoteMark.validate`: fail on the first mark counted fewer than twice. */
  method AllAtLeastTwice(refs: map<string, nat>) returns (ok: bool)
    ensures ok <==> forall r :: r in refs ==> refs[r] >= 2
  {
    var rest := refs.Keys;
    while rest != {}
      invariant rest <= refs.Keys
      invariant forall r :: r in refs && r !in rest ==> refs[r] >= 2
      decreases |rest|
    {
      var r :| r in rest;
      if refs[r] < 2 {
        return false;
      }
      rest := rest - {r};
    }
    return true;
  }

  /**
    * `FootnoteMark.validate` holds exactly when `\footnotemark` occurs, at
    * least one mark is found, and every mark found occurs at least twice.
    */
  lemma FootnoteMarkValidIff(content: string)
    ensures var marks := Marks(content);
      FootnoteMarkValid(content) <==>
        (Contains(content, "\\footnotemark") && marks != [] &&
         forall k :: 0 <= k < |marks| ==> multiset(marks)[marks[k]] >= 2)
  {
    TallyAtLeastTwice(Marks(content));
  }

  /** Every key counted at least twice is every element occurring at least twice. */
  lemma TallyAtLeastTwice(marks: seq<string>)
    ensures var refs := Tally(marks);
      (|refs| > 0 && forall r :: r in refs ==> refs[r] >= 2) <==>
      (marks != [] && forall k :: 0 <= k < |marks| ==> multiset(marks)[marks[k]] >= 2)
  {
    var refs := Tally(marks);
    if marks != [] {
      assert marks[0] in refs;
    }
    if forall r :: r in refs ==> refs[r] >= 2 {
      forall k | 0 <= k < |marks| ensures multiset(marks)[marks[k]] >= 2 {
        assert marks[k] in refs;
      }
    }
    if forall k :: 0 <= k < |marks| ==> multiset(marks)[marks[k]] >= 2 {
      forall r | r in refs ensures refs[r] >= 2 {
        var k :| 0 <= k < |marks| && marks[k] == r;
      }
    }
  }

  // ----------------------------------------------------------------------
  // Footnote.validate
  // ----------------------------------------------------------------------

  /** `Footnote.validate`: `\footnote` but no `\footnotemark` in the lower-cased content. */
  predicate FootnoteValid(content: string) {
    !Has(content, "\\footnotemark") && Has(content, "\\footnote")
  }

  /** A command `FootnoteMark` accepts is never accepted by `Footnote`. */
  lemma FootnoteSchemesExclusive(content: string)
    ensures !(FootnoteMarkValid(content) && FootnoteValid(content))
  {
    if Contains(content, "\\footnotemark") {
      ContainsLowered(content, "\\footnotemark");
    }
  }

  // ----------------------------------------------------------------------
  // FootnoteMark.extract
  // ----------------------------------------------------------------------

  /** `part.strip("{ ")`. */
  function MarkLine(part: string): string {
    StripChars(part, {'{', ' '})
  }

  /** A line that, once stripped, starts with `\footnotemark` holds affiliations. */
  predicate IsAffiliationLine(part: string) {
    StartsWith(MarkLine(part), "\\footnotemark")
  }

  /** `[s for ref in ref_id.split(",") if len(s := ref.strip()) > 0]`. */
  function MarkIds(refId: string): (r: seq<string>)
    ensures forall id :: id in r ==> id != "" && Trimmed(id)
  {
    NonEmptyStripped(Split(refId, ","))
  }

  function MarkAuthorOf(m: Match): RefAuthor {
    RefAuthor(m.g1, MarkIds(m.g2))
  }

  function MarkAffiliationOf(m: Match): RefAffiliation {
    RefAffiliation(m.g1, m.g2)
  }

  /** The authors `FOOTNOTEMARK_AUTHOR` finds in one separator-split piece. */
  function SubpartAuthors(P: Patterns, subpart: string): seq<RefAuthor> {
    Map(FindIter(P.footnotemarkAuthor, subpart), MarkAuthorOf)
  }

  function SubpartAuthorsOf(P: Patterns): string -> seq<RefAuthor> {
    (subpart: string) => SubpartAuthors(P, subpart)
  }

  /** `_extract_authors_from_part`. */
  function AuthorsFromPart(P: Patterns, split: string -> seq<string>, part: string): seq<RefAuthor> {
    FlatMap(split(part), SubpartAuthorsOf(P))
  }

  /** `_extract_affiliations_from_part`. */
  function AffiliationsFromPart(P: Patterns, part: string): seq<RefAffiliation> {
    Map(FindIter(P.footnotemarkAff, part), MarkAffiliationOf)
  }

  /** The authors a `\\`-split line contributes: none from an affiliation line. */
  function LineAuthors(P: Patterns, split: string -> seq<string>, part: string): seq<RefAuthor> {
    if IsAffiliationLine(part) then [] else AuthorsFromPart(P, split, MarkLine(part))
  }

  /** The affiliations a `\\`-split line contributes: only an affiliation line has any. */
  function LineAffiliations(P: Patterns, part: string): seq<RefAffiliation> {
    if IsAffiliationLine(part) then AffiliationsFromPart(P, MarkLine(part)) else []
  }

  function LineAuthorsOf(P: Patterns, split: string -> seq<string>): string -> seq<RefAuthor> {
    (part: string) => LineAuthors(P, split, part)
  }

  function LineAffiliationsOf(P: Patterns): string -> seq<RefAffiliation> {
    (part: string) => LineAffiliations(P, part)
  }

  /** The `\\`-split lines of the unbraced, stripped content after adjacent marks are joined. */
  function MarkParts(P: Patterns, content: string): seq<string> {
    Split(P.joinMulti(FootnotemarkMulti, Strip(Unbraced(content))), "\\\\")
  }

  /** `FootnoteMark.extract`. */
  function FootnoteMarkSpec(P: Patterns, san: string -> string, split: string -> seq<string>, content: string)
    : seq<Author>
  {
    var parts := MarkParts(P, content);
    Joined(san, FlatMap(parts, LineAuthorsOf(P, split)), FlatMap(parts, LineAffiliationsOf(P)))
  }

  /** `FootnoteMark.extract`. */
  method FootnoteMarkExtract(P: Patterns, san: string -> string, split: string -> seq<string>, content: string)
    returns (r: seq<Author>)
    ensures r == FootnoteMarkSpec(P, san, split, content)
  {
    var c := Strip(Unbraced(content));
    c := P.joinMulti(FootnotemarkMulti, c);
    var authors: seq<RefAuthor> := [];
    var affs: seq<RefAffiliation> := [];
    var parts := Split(c, "\\\\");
    var i := 0;
    while i < |parts|
      invariant 0 <= i <= |parts|
      invariant authors == FlatMap(parts[..i], LineAuthorsOf(P, split))
      invariant affs == FlatMap(parts[..i], LineAffiliationsOf(P))
    {
      FlatMapStep(parts, LineAuthorsOf(P, split), i);
      FlatMapStep(parts, LineAffiliationsOf(P), i);
      var part := StripChars(parts[i], {'{', ' '});
      if StartsWith(part, "\\footnotemark") {
        var found := AffiliationsFromPartLoop(P, part);
        affs := affs + found;
      } else {
        var found := AuthorsFromPartLoop(P, split, part);
        authors := authors + found;
      }
      i := i + 1;
    }
    assert parts[..|parts|] == parts;
    r := JoinAuthorAndAffilById(san, authors, affs);
  }

  /** `_extract_authors_from_part`. */
  method AuthorsFromPartLoop(P: Patterns, split: string -> seq<string>, part: string) returns (authors: seq<RefAuthor>)
    ensures authors == AuthorsFromPart(P, split, part)
  {
    var subparts := split(part);
    authors := [];
    var i := 0;
    while i < |subparts|
      invariant 0 <= i <= |subparts|
      invariant authors == FlatMap(subparts[..i], SubpartAuthorsOf(P))
    {
      FlatMapStep(subparts, SubpartAuthorsOf(P), i);
      var found := SubpartAuthorsLoop(P, subparts[i]);
      authors := authors + found;
      i := i + 1;
    }
    assert subparts[..|subparts|] == subparts;
  }

  /** The inner loop of `_extract_authors_from_part`, over the matches of one piece. */
  method SubpartAuthorsLoop(P: Patterns, subpart: string) returns (authors: seq<RefAuthor>)
    ensures authors == SubpartAuthors(P, subpart)
  {
    var ms := FindIter(P.footnotemarkAuthor, subpart);
    authors := [];
    var i := 0;
    while i < |ms|
      invariant 0 <= i <= |ms|
      invariant authors == Map(ms[..i], MarkAuthorOf)
    {
      MapStep(ms, MarkAuthorOf, i);
      var refIds := NonEmptyStripped(Split(ms[i].g2, ","));
      authors := authors + [RefAuthor(ms[i].g1, refIds)];
      i := i + 1;
    }
    assert ms[..|ms|] == ms;
  }

  /** `_extract_affiliations_from_part`. */
  method AffiliationsFromPartLoop(P: Patterns, part: string) returns (affiliations: seq<RefAffiliation>)
    ensures affiliations == AffiliationsFromPart(P, part)
  {
    var ms := FindIter(P.footnotemarkAff, part);
    affiliations := [];
    var i := 0;
    while i < |ms|
      invariant 0 <= i <= |ms|
      invariant affiliations == Map(ms[..i], MarkAffiliationOf)
    {
      MapStep(ms, MarkAffiliationOf, i);
      affiliations := affiliations + [RefAffiliation(ms[i].g1, ms[i].g2)];
      i := i + 1;
    }
    assert ms[..|ms|] == ms;
  }

  /**
    * Affiliations come only from lines that, stripped of `{` and spaces,
    * start with `\footnotemark`, and authors only from the other lines.
    */
  lemma FootnoteMarkSides(P: Patterns, split: string -> seq<string>, parts: seq<string>, a: RefAuthor, f: RefAffiliation)
    ensures a in FlatMap(parts, LineAuthorsOf(P, split)) ==>
      exists k :: 0 <= k < |parts| && !IsAffiliationLine(parts[k]) && a in AuthorsFromPart(P, split, MarkLine(parts[k]))
    ensures f in FlatMap(parts, LineAffiliationsOf(P)) ==>
      exists k :: 0 <= k < |parts| && IsAffiliationLine(parts[k]) && f in AffiliationsFromPart(P, MarkLine(parts[k]))
  {
    FlatMapIn(parts, LineAuthorsOf(P, split), a);
    FlatMapIn(parts, LineAffiliationsOf(P), f);
  }

  /** Every reference id an author carries is non-empty and stripped. */
  lemma AuthorIdsClean(P: Patterns, split: string -> seq<string>, part: string, a: RefAuthor)
    requires a in AuthorsFromPart(P, split, part)
    ensures forall id :: id in a.refIds ==> id != "" && Trimmed(id)
  {
    FlatMapIn(split(part), SubpartAuthorsOf(P), a);
    var k :| 0 <= k < |split(part)| && a in SubpartAuthors(P, split(part)[k]);
    var ms := FindIter(P.footnotemarkAuthor, split(part)[k]);
    MapAt(ms, MarkAuthorOf);
  }

  // ----------------------------------------------------------------------
  // Footnote.extract
  // ----------------------------------------------------------------------

  /** One `EXT_AUTHOR_FOOTNOTE` match: the stripped name with the stripped `\footnote` content, unsanitized. */
  function FootnoteAuthorOf(m: Match): Author {
    Author(Strip(m.g1), [Strip(Slice(m.g2, 1, -1))])
  }

  /** The unbraced, stripped content with LaTeX line breaks removed. */
  function FootnoteText(content: string): string {
    Latex.RemoveLatexNewlines(Strip(Unbraced(content)))
  }

  function FootnoteSpec(P: Patterns, content: string): seq<Author> {
    Map(FindIter(P.authorFootnote, FootnoteText(content)), FootnoteAuthorOf)
  }

  /** `Footnote.extract`. */
  method FootnoteExtract(P: Patterns, content: string) returns (authorAffs: seq<Author>)
    ensures authorAffs == FootnoteSpec(P, content)
  {
    var c := Strip(Unbraced(content));
    c := Latex.RemoveLatexNewlines(c);
    var ms := FindIter(P.authorFootnote, c);
    authorAffs := FootnoteAuthorsLoop(ms);
  }

  /** The loop of `Footnote.extract` over the matches of `author_footnote`. */
  method FootnoteAuthorsLoop(ms: seq<Match>) returns (authorAffs: seq<Author>)
    ensures authorAffs == Map(ms, FootnoteAuthorOf)
  {
    authorAffs := [];
    var i := 0;
    while i < |ms|
      invariant 0 <= i <= |ms|
      invariant authorAffs == Map(ms[..i], FootnoteAuthorOf)
    {
      MapStep(ms, FootnoteAuthorOf, i);
      var name := Strip(ms[i].g1);
      var affiliation := Strip(Slice(ms[i].g2, 1, -1));
      authorAffs := authorAffs + [Author(name, [affiliation])];
      i := i + 1;
    }
    assert ms[..|ms|] == ms;
  }

  /**
    * `Footnote.extract` yields one author per match, in order, with the
    * match's stripped name and exactly its stripped `\footnote` content.
    */
  lemma FootnoteOnePerMatch(P: Patterns, content: string)
    ensures var ms := FindIter(P.authorFootnote, FootnoteText(content));
      var r := FootnoteSpec(P, content);
      |r| == |ms| && OneAffiliationEach(r) &&
      forall k :: 0 <= k < |r| ==> r[k].name == Strip(ms[k].g1) && r[k].affiliations == [Strip(Slice(ms[k].g2, 1, -1))]
  {
    MapAt(FindIter(P.authorFootnote, FootnoteText(content)), FootnoteAuthorOf);
  }
}
