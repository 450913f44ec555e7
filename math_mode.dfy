/**
  * The math-mode scheme: authors carry math-mode references such as
  * `$^{1,2}$` after their names, and affiliations carry theirs in front.
  */
module MathModeScheme {
  import opened PyStr
  import opened Regex
  import opened Patterns
  import opened Authors
  import opened CmdUtil
  import opened Scheme
  import AffAddrScheme

  // ----------------------------------------------------------------------
  // Validation
  // ----------------------------------------------------------------------

  /** Commands other schemes handle; their presence rules this scheme out. */
  const InvalidCommands: seq<string> := [
    "\\addr", "\\address", "\\affaddr", "\\affiliation", "\\affiliations", "\\affil",
    "\\authorblock", "\\ieeeauthorblock", "\\ieeeauthorrefmark", "\\ieeecompsocitemizethanks",
    "\\institute", "\\institution"
  ]

  /** The number of math-mode references, counted with the spaces removed. */
  function SpacelessRefs(content: string): nat {
    var noSpaces := Replace(content, " ", "");
    Count(noSpaces, "$^") + Count(noSpaces, "${}^")
  }

  /**
    * `AuthorMathModeAff.validate`: an even, non-zero number of `$`, at least
    * two references, none of the commands other schemes handle, and not
    * `\authorinfo`.
    */
  predicate AuthorMathModeAffValid(cmdName: string, content: string) {
    var dollars := Count(content, "$");
    && dollars != 0 && dollars % 2 == 0
    && SpacelessRefs(content) >= 2
    && (forall k :: 0 <= k < |InvalidCommands| ==> !Contains(Lower(content), InvalidCommands[k]))
    && cmdName != "authorinfo"
  }

  method AuthorMathModeAffValidate(cmdName: string, content: string) returns (ok: bool)
    ensures ok == AuthorMathModeAffValid(cmdName, content)
  {
    var dollars := Count(content, "$");
    if dollars == 0 || dollars % 2 == 1 {
      return false;
    }
    if SpacelessRefs(content) < 2 {
      return false;
    }
    var lower := Lower(content);
    var k := 0;
    while k < |InvalidCommands|
      invariant 0 <= k <= |InvalidCommands|
      invariant forall j :: 0 <= j < k ==> !Contains(lower, InvalidCommands[j])
    {
      if Contains(lower, InvalidCommands[k]) {
        return false;
      }
      k := k + 1;
    }
    return cmdName != "authorinfo";
  }

  /** The math-mode scheme never accepts what an `\affaddr` scheme accepts. */
  lemma ExcludesAffaddrSchemes(cmdName: string, content: string)
    requires AuthorMathModeAffValid(cmdName, content)
    ensures !AffAddrScheme.AffAddrValid(content) && !AffAddrScheme.AffAddrMathModeValid(content)
    ensures !AffAddrScheme.AlignAuthorAffAddrValid(content) && !AffAddrScheme.AffMarkAffAddrValid(content)
  {
    assert InvalidCommands[2] == "\\affaddr";
  }

  // ----------------------------------------------------------------------
  // Parts
  // ----------------------------------------------------------------------

  /** `_is_possible_author_part`: the part ends with `$` or holds at least two. */
  predicate IsPossibleAuthorPart(part: string) {
    EndsWith(part, "$") || Count(part, "$") >= 2
  }

  /**
    * `_is_possible_affiliation_part`: the part starts with `$`, or holds
    * exactly two with the first before the middle. The source compares with
    * `len(part) / 2`, a float; `2 * i < len(part)` is the same test on
    * integers.
    */
  predicate IsPossibleAffiliationPart(part: string) {
    StartsWith(part, "$") || (Count(part, "$") == 2 && 2 * Find(part, "$") < |part|)
  }

  /** A part with a single `$` is an author part exactly when that `$` ends it. */
  lemma SingleDollarAuthorPart(part: string)
    requires Count(part, "$") == 1
    ensures IsPossibleAuthorPart(part) <==> EndsWith(part, "$")
  {
  }

  /** What `_split_to_math_parts` has gathered, in the order of the parts, and the `$`-free text pending. */
  datatype Gluing = Gluing(parts: seq<string>, buf: string)

  /**
    * The backward loop of `_split_to_math_parts` over `ps`: a `$`-free part is
    * put in front of the pending text; a part with `$` takes the pending
    * text, stripped, as one math part.
    */
  function Glue(ps: seq<string>): Gluing
    decreases |ps|
  {
    if ps == [] then Gluing([], "")
    else
      var g := Glue(ps[1..]);
      if Count(ps[0], "$") == 0 then Gluing(g.parts, ps[0] + g.buf)
      else Gluing([Strip(ps[0] + g.buf)] + g.parts, "")
  }

  /** `_split_to_math_parts` on the `\\`-split parts: a leading `$`-free stretch, when non-empty, comes first. */
  function MathPartsOf(ps: seq<string>): seq<string> {
    var g := Glue(ps);
    (if g.buf != "" then [Strip(g.buf)] else []) + g.parts
  }

  function SplitToMathParts(content: string): seq<string> {
    MathPartsOf(Split(content, "\\\\"))
  }

  /** `xs[::-1]`. */
  function Reverse<A>(xs: seq<A>): (r: seq<A>)
    ensures |r| == |xs|
    decreases |xs|
  {
    if xs == [] then [] else [xs[|xs| - 1]] + Reverse(xs[..|xs| - 1])
  }

  lemma ReverseSnoc<A>(xs: seq<A>, x: A)
    ensures Reverse(xs + [x]) == [x] + Reverse(xs)
  {
    assert (xs + [x])[..|xs|] == xs;
  }

  /** `_split_to_math_parts`, walking the parts backwards and reversing at the end. */
  method SplitToMathPartsLoop(content: string) returns (r: seq<string>)
    ensures r == SplitToMathParts(content)
  {
    var parts := Split(content, "\\\\");
    var mathParts: seq<string> := [];
    var buf := "";
    var i := |parts|;
    while i > 0
      invariant 0 <= i <= |parts|
      invariant Glue(parts[i..]) == Gluing(Reverse(mathParts), buf)
    {
      i := i - 1;
      assert parts[i..][1..] == parts[i + 1..];
      if Count(parts[i], "$") == 0 {
        buf := parts[i] + buf;
      } else {
        ReverseSnoc(mathParts, Strip(parts[i] + buf));
        mathParts := mathParts + [Strip(parts[i] + buf)];
        buf := "";
      }
    }
    assert parts[0..] == parts;
    if buf != "" {
      ReverseSnoc(mathParts, Strip(buf));
      mathParts := mathParts + [Strip(buf)];
    }
    r := Reverse(mathParts);
  }

  lemma DollarIn(s: string)
    ensures Count(s, "$") > 0 <==> '$' in s
  {
    CountPositiveIffContains(s, "$");
    ContainsChar(s, '$');
  }

  /** Every part the loop gathers holds a `$`. */
  lemma {:induction false} GluedPartsHaveDollar(ps: seq<string>)
    ensures forall k :: 0 <= k < |Glue(ps).parts| ==> '$' in Glue(ps).parts[k]
    decreases |ps|
  {
    if ps != [] {
      GluedPartsHaveDollar(ps[1..]);
      if Count(ps[0], "$") != 0 {
        DollarIn(ps[0]);
        StripKeepsPresent(ps[0] + Glue(ps[1..]).buf, '$');
      }
    }
  }

  /** Every math part except possibly the first holds a `$`. */
  lemma MathPartsHaveDollar(content: string)
    ensures var r := SplitToMathParts(content); forall k :: 1 <= k < |r| ==> '$' in r[k]
  {
    GluedPartsHaveDollar(Split(content, "\\\\"));
  }

  /** `$`-free parts put in front of the pending text: they are glued on, with no `\\` between them. */
  lemma {:induction false} GlueFreeParts(frees: seq<string>, rest: seq<string>)
    requires forall k :: 0 <= k < |frees| ==> Count(frees[k], "$") == 0
    ensures Glue(frees + rest) == Gluing(Glue(rest).parts, Concat(frees) + Glue(rest).buf)
    decreases |frees|
  {
    if frees != [] {
      var ps := frees + rest;
      assert ps[0] == frees[0] && ps[1..] == frees[1..] + rest;
      GlueFreeParts(frees[1..], rest);
      var g := Glue(rest);
      assert Glue(ps) == Gluing(g.parts, frees[0] + (Concat(frees[1..]) + g.buf));
      assert Concat(frees) == frees[0] + Concat(frees[1..]);
      assert frees[0] + (Concat(frees[1..]) + g.buf) == Concat(frees) + g.buf;
    } else {
      assert frees + rest == rest;
    }
  }

  /**
    * A part with `$` followed by `$`-free parts, up to the next part with
    * `$` or the end: they make one math part, the texts concatenated without
    * the `\\` separator and stripped.
    */
  lemma MathPartGlued(p: string, frees: seq<string>, rest: seq<string>)
    requires Count(p, "$") > 0
    requires forall k :: 0 <= k < |frees| ==> Count(frees[k], "$") == 0
    requires rest == [] || Count(rest[0], "$") > 0
    ensures Glue([p] + frees + rest).parts == [Strip(p + Concat(frees))] + Glue(rest).parts
  {
    var tail := frees + rest;
    assert [p] + frees + rest == [p] + tail;
    GlueHead(p, tail);
    GlueFreeParts(frees, rest);
    GlueBufEmpty(rest);
    assert Concat(frees) + Glue(rest).buf == Concat(frees);
  }

  /** Nothing is pending after a part with `$`. */
  lemma GlueBufEmpty(rest: seq<string>)
    requires rest == [] || Count(rest[0], "$") > 0
    ensures Glue(rest).buf == ""
  {
    if rest != [] {
      GlueHead(rest[0], rest[1..]);
      assert [rest[0]] + rest[1..] == rest;
    }
  }

  /** A part with `$` takes the pending text. */
  lemma GlueHead(p: string, tail: seq<string>)
    requires Count(p, "$") > 0
    ensures Glue([p] + tail) == Gluing([Strip(p + Glue(tail).buf)] + Glue(tail).parts, "")
  {
    assert ([p] + tail)[1..] == tail;
  }

  // ----------------------------------------------------------------------
  // Extraction
  // ----------------------------------------------------------------------

  /** `_find_authors` for one `MATH_AUTHOR_REF` match: skipped when the name or the stripped reference is empty. */
  function MathAuthorOf(m: Match): (r: seq<RefAuthor>)
    ensures r == [] <==> m.g1 == "" || StripChars(m.g2, MathTrim) == ""
    ensures r != [] ==> r == [RefAuthor(m.g1, SplitRefStrings(StripChars(m.g2, MathTrim)))]
  {
    var ref := StripChars(m.g2, MathTrim);
    if m.g1 == "" || ref == "" then [] else [RefAuthor(m.g1, SplitRefStrings(ref))]
  }

  /** `_find_affiliations` for one `MATH_AFFILIATION` match: skipped when the name or the stripped reference is empty. */
  function MathAffiliationOf(m: Match): (r: seq<RefAffiliation>)
    ensures r == [] <==> m.g1 == "" || StripChars(m.g2, MathTrim) == ""
    ensures r != [] ==> r == [RefAffiliation(m.g1, StripChars(m.g2, MathTrim))]
  {
    var ref := StripChars(m.g2, MathTrim);
    if m.g1 == "" || ref == "" then [] else [RefAffiliation(m.g1, ref)]
  }

  /** `_find_authors`. */
  function FindAuthors(P: Patterns, part: string): seq<RefAuthor> {
    FlatMap(FindIter(P.mathAuthorRef, part), MathAuthorOf)
  }

  function FindAffiliations(P: Patterns, part: string): seq<RefAffiliation> {
    FlatMap(FindIter(P.mathAffiliation, part), MathAffiliationOf)
  }

  /** What a part contributes: the affiliation test comes first; a part that passes neither test contributes nothing. */
  function PartAuthors(P: Patterns, part: string): seq<RefAuthor> {
    if IsPossibleAffiliationPart(part) then []
    else if IsPossibleAuthorPart(part) then FindAuthors(P, part)
    else []
  }

  function PartAffiliations(P: Patterns, part: string): seq<RefAffiliation> {
    if IsPossibleAffiliationPart(part) then FindAffiliations(P, part) else []
  }

  function PartAuthorsOf(P: Patterns): string -> seq<RefAuthor> {
    (part: string) => PartAuthors(P, part)
  }

  function PartAffiliationsOf(P: Patterns): string -> seq<RefAffiliation> {
    (part: string) => PartAffiliations(P, part)
  }

  /** `AuthorMathModeAff.extract`: merge adjacent references, split into math parts, sort them, join by id. */
  function AuthorMathModeAffSpec(P: Patterns, san: string -> string, content: string): seq<Author> {
    var parts := SplitToMathParts(P.joinMulti(MathModeMulti, content));
    Joined(san, FlatMap(parts, PartAuthorsOf(P)), FlatMap(parts, PartAffiliationsOf(P)))
  }

  method FindAuthorsLoop(P: Patterns, part: string) returns (authors: seq<RefAuthor>)
    ensures authors == FindAuthors(P, part)
  {
    var ms := FindIter(P.mathAuthorRef, part);
    authors := [];
    var i := 0;
    while i < |ms|
      invariant 0 <= i <= |ms|
      invariant authors == FlatMap(ms[..i], MathAuthorOf)
    {
      FlatMapStep(ms, MathAuthorOf, i);
      var name := ms[i].g1;
      var ref := StripChars(ms[i].g2, MathTrim);
      if name != "" && ref != "" {
        authors := authors + [RefAuthor(name, SplitRefStrings(ref))];
      }
      i := i + 1;
    }
    assert ms[..|ms|] == ms;
  }

  method FindAffiliationsLoop(P: Patterns, part: string) returns (affiliations: seq<RefAffiliation>)
    ensures affiliations == FindAffiliations(P, part)
  {
    var ms := FindIter(P.mathAffiliation, part);
    affiliations := [];
    var i := 0;
    while i < |ms|
      invariant 0 <= i <= |ms|
      invariant affiliations == FlatMap(ms[..i], MathAffiliationOf)
    {
      FlatMapStep(ms, MathAffiliationOf, i);
      var ref := StripChars(ms[i].g2, MathTrim);
      if ms[i].g1 != "" && ref != "" {
        affiliations := affiliations + [RefAffiliation(ms[i].g1, ref)];
      }
      i := i + 1;
    }
    assert ms[..|ms|] == ms;
  }

  method AuthorMathModeAffExtract(P: Patterns, san: string -> string, content: string) returns (r: seq<Author>)
    ensures r == AuthorMathModeAffSpec(P, san, content)
  {
    var c := P.joinMulti(MathModeMulti, content);
    var parts := SplitToMathPartsLoop(c);
    var authors: seq<RefAuthor> := [];
    var affiliations: seq<RefAffiliation> := [];
    var i := 0;
    while i < |parts|
      invariant 0 <= i <= |parts|
      invariant authors == FlatMap(parts[..i], PartAuthorsOf(P))
      invariant affiliations == FlatMap(parts[..i], PartAffiliationsOf(P))
    {
      FlatMapStep(parts, PartAuthorsOf(P), i);
      FlatMapStep(parts, PartAffiliationsOf(P), i);
      if IsPossibleAffiliationPart(parts[i]) {
        var found := FindAffiliationsLoop(P, parts[i]);
        affiliations := affiliations + found;
      } else if IsPossibleAuthorPart(parts[i]) {
        var found := FindAuthorsLoop(P, parts[i]);
        authors := authors + found;
      }
      i := i + 1;
    }
    assert parts[..|parts|] == parts;
    r := JoinAuthorAndAffilById(san, authors, affiliations);
  }

  /** Every author found has a non-empty name. */
  lemma FoundAuthorsNamed(P: Patterns, part: string, a: RefAuthor)
    requires a in FindAuthors(P, part)
    ensures a.name != ""
  {
    FlatMapIn(FindIter(P.mathAuthorRef, part), MathAuthorOf, a);
  }

  /** Every affiliation found has a non-empty name and a non-empty reference. */
  lemma FoundAffiliationsNamed(P: Patterns, part: string, f: RefAffiliation)
    requires f in FindAffiliations(P, part)
    ensures f.name != "" && f.refId != ""
  {
    FlatMapIn(FindIter(P.mathAffiliation, part), MathAffiliationOf, f);
  }
}
