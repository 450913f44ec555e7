/**
  * The `\thanks{…}` schemes: one `\thanks` per author, math-mode references
  * into `\thanks`, and `\thanks` sentences "names are with affiliation".
  */
module ThanksScheme {
  import opened PyStr
  import opened Regex
  import opened RegExp
  import opened Patterns
  import opened Authors
  import opened CmdUtil
  import opened Scheme
  import CompSocThanksScheme

  // ----------------------------------------------------------------------
  // Validators
  // ----------------------------------------------------------------------

  /** Every separator-split part holds an emptied `\thanks{}`. */
  predicate EveryPartThanked(parts: seq<string>) {
    forall k :: 0 <= k < |parts| ==> Contains(parts[k], "\\thanks{}")
  }

  /**
    * `Thanks.validate`: `\thanks` occurs, and after every `\thanks{…}` is
    * emptied (`regex.sub` with the template `\\thanks{}`, one backslash)
    * each separator-split part holds a `\thanks{}`.
    */
  predicate ThanksValid(content: string) {
    var c := Lower(content);
    Contains(c, "\\thanks") &&
    EveryPartThanked(SplitOnSeparator(SubConst(c, FindIter(ThanksContent, c), "\\thanks{}")))
  }

  /** `ThanksMath.validate`: `\thanks`, at least one math-mode reference, and no predicative expression. */
  predicate ThanksMathValid(P: Patterns, content: string) {
    var c := Lower(content);
    Contains(c, "\\thanks") && MathRefs(content) > 0 && Search(P.predicative, c).None?
  }

  /**
    * `text.replace(t, rep)` for a non-empty `t`. The texts replaced here are
    * `\thanks{…}` matches, never empty, so Python's behaviour for an empty
    * `t` (inserting `rep` between every two characters and at both ends)
    * never arises; that case is kept as the text itself.
    */
  function ReplaceBy(text: string, t: string, rep: string): string {
    if t == "" then text else Replace(text, t, rep)
  }

  /** `text` with each text of `ts` replaced in turn. */
  function ReplaceEach(text: string, ts: seq<string>, rep: string): string
    decreases |ts|
  {
    if ts == [] then text else ReplaceBy(ReplaceEach(text, ts[..|ts| - 1], rep), ts[|ts| - 1], rep)
  }

  lemma ReplaceEachSnoc(text: string, ts: seq<string>, t: string, rep: string)
    ensures ReplaceEach(text, ts + [t], rep) == ReplaceBy(ReplaceEach(text, ts, rep), t, rep)
  {
    assert (ts + [t])[..|ts|] == ts;
  }

  /** The `\thanks{…}` content holds a predicative expression. */
  predicate HasPredicative(P: Patterns, m: Match) {
    Search(P.predicative, Inner(m)).Some?
  }

  /**
    * `ThanksWith.validate`: `\thanks` occurs, neither `\ieeecompsoc` nor
    * `authorblock` does, every `\thanks{…}` content holds a predicative
    * expression, and after each `\thanks{…}` is replaced (by `str.replace`
    * with `\\thanks{}`, two backslashes) every separator-split part holds a
    * `\thanks{}`.
    */
  predicate ThanksWithValid(P: Patterns, content: string) {
    var c := Lower(content);
    var ms := FindIter(ThanksContent, c);
    && Contains(c, "\\thanks")
    && !Contains(c, "\\ieeecompsoc") && !Contains(c, "authorblock")
    && (forall k :: 0 <= k < |ms| ==> HasPredicative(P, ms[k]))
    && EveryPartThanked(SplitOnSeparator(ReplaceEach(c, Map(ms, TextOf(c)), "\\\\thanks{}")))
  }

  /** `ThanksWith.validate`, with its loop over the `\thanks{…}` matches and its early returns. */
  method ThanksWithValidate(P: Patterns, content: string) returns (r: bool)
    ensures r == ThanksWithValid(P, content)
  {
    var c := Lower(content);
    if !Contains(c, "\\thanks") || Contains(c, "\\ieeecompsoc") || Contains(c, "authorblock") {
      return false;
    }
    var ms := FindIter(ThanksContent, c);
    var ok, replaced := ThanksWithLoop(P, c, ms, "\\\\thanks{}");
    if !ok {
      return false;
    }
    var parts := SplitOnSeparator(replaced);
    r := EveryPartThankedLoop(parts);
  }

  /**
    * The loop of `ThanksWith.validate` over the `\thanks{…}` matches: false
    * at the first content without a predicative expression, otherwise each
    * match's text replaced in turn.
    */
  method ThanksWithLoop(P: Patterns, c: string, ms: seq<Match>, rep: string) returns (ok: bool, replaced: string)
    ensures ok <==> forall k :: 0 <= k < |ms| ==> HasPredicative(P, ms[k])
    ensures ok ==> replaced == ReplaceEach(c, Map(ms, TextOf(c)), rep)
  {
    replaced := c;
    var i := 0;
    while i < |ms|
      invariant 0 <= i <= |ms|
      invariant ThanksDone(P, c, ms, rep, i, replaced)
    {
      if Search(P.predicative, Inner(ms[i])).None? {
        return false, replaced;
      }
      ThanksStep(P, c, ms, rep, i, replaced);
      replaced := ReplaceBy(replaced, Text(c, ms[i]), rep);
      i := i + 1;
    }
    assert ms[..|ms|] == ms;
    return true, replaced;
  }

  /** After the first `i` matches: each holds a predicative expression and its text is replaced. */
  predicate ThanksDone(P: Patterns, c: string, ms: seq<Match>, rep: string, i: nat, replaced: string)
    requires i <= |ms|
  {
    (forall k :: 0 <= k < i ==> HasPredicative(P, ms[k])) && replaced == ReplaceEach(c, Map(ms[..i], TextOf(c)), rep)
  }

  lemma ThanksStep(P: Patterns, c: string, ms: seq<Match>, rep: string, i: nat, replaced: string)
    requires i < |ms| && ThanksDone(P, c, ms, rep, i, replaced) && HasPredicative(P, ms[i])
    ensures ThanksDone(P, c, ms, rep, i + 1, ReplaceBy(replaced, Text(c, ms[i]), rep))
  {
    MapStep(ms, TextOf(c), i);
    ReplaceEachSnoc(c, Map(ms[..i], TextOf(c)), Text(c, ms[i]), rep);
  }

  /** The loop `for part in parts: if r"\thanks{}" not in part: return False`. */
  method EveryPartThankedLoop(parts: seq<string>) returns (r: bool)
    ensures r == EveryPartThanked(parts)
  {
    var i := 0;
    while i < |parts|
      invariant 0 <= i <= |parts|
      invariant forall k :: 0 <= k < i ==> Contains(parts[k], "\\thanks{}")
    {
      if !Contains(parts[i], "\\thanks{}") {
        return false;
      }
      i := i + 1;
    }
    return true;
  }

  /** `ThanksWithMath.validate`. */
  predicate ThanksWithMathValid(content: string) {
    var c := Lower(content);
    Contains(c, "\\thanks") && !Contains(c, "\\ieeecompsoc") && !Contains(c, "authorblock")
  }

  /** `ThanksWithMath` accepts whatever `ThanksWith` accepts: it drops the per-`\thanks` checks. */
  lemma ThanksWithImpliesThanksWithMath(P: Patterns, content: string)
    ensures ThanksWithValid(P, content) ==> ThanksWithMathValid(content)
  {
  }

  /** A math reference and no predicative expression: `ThanksMath` rejects exactly when either is missing. */
  lemma ThanksMathNeeds(P: Patterns, content: string)
    ensures MathRefs(content) == 0 ==> !ThanksMathValid(P, content)
    ensures Search(P.predicative, Lower(content)).Some? ==> !ThanksMathValid(P, content)
    ensures Contains(Lower(content), "\\thanks") && MathRefs(content) > 0 && Search(P.predicative, Lower(content)).None?
      ==> ThanksMathValid(P, content)
  {
  }

  // ----------------------------------------------------------------------
  // `Thanks.extract`
  // ----------------------------------------------------------------------

  /** One `AUTHOR_THANKS_AFF` match: the sanitized name with the sanitized `\thanks` content. */
  function ThanksAuthor(san: string -> string, m: Match): Author {
    Author(san(m.g1), [san(Slice(m.g2, 1, -1))])
  }

  function ThanksAuthorOf(san: string -> string): Match -> Author {
    (m: Match) => ThanksAuthor(san, m)
  }

  /** The name/`\thanks` matches inside the braces of the command. */
  function ThanksMatches(P: Patterns, content: string): seq<Match> {
    FindIter(P.authorThanksAff, Slice(content, 1, -1))
  }

  function ThanksExtract(P: Patterns, san: string -> string, content: string): seq<Author> {
    Map(ThanksMatches(P, content), ThanksAuthorOf(san))
  }

  /** `Thanks.extract`. */
  method ThanksExtractLoop(P: Patterns, san: string -> string, content: string) returns (authorAff: seq<Author>)
    ensures authorAff == ThanksExtract(P, san, content)
  {
    var ms := ThanksMatches(P, content);
    authorAff := [];
    var i := 0;
    while i < |ms|
      invariant 0 <= i <= |ms|
      invariant authorAff == Map(ms[..i], ThanksAuthorOf(san))
    {
      MapStep(ms, ThanksAuthorOf(san), i);
      authorAff := authorAff + [Author(san(ms[i].g1), [san(Slice(ms[i].g2, 1, -1))])];
      i := i + 1;
    }
    assert ms[..|ms|] == ms;
  }

  /** One author per name/`\thanks` match, in order, each with exactly its `\thanks` content as affiliation. */
  lemma ThanksOnePerMatch(P: Patterns, san: string -> string, content: string)
    ensures var ms := ThanksMatches(P, content);
      var r := ThanksExtract(P, san, content);
      && |r| == |ms| && OneAffiliationEach(r)
      && forall k :: 0 <= k < |r| ==> r[k] == Author(san(ms[k].g1), [san(Slice(ms[k].g2, 1, -1))])
  {
    MapAt(ThanksMatches(P, content), ThanksAuthorOf(san));
  }

  // ----------------------------------------------------------------------
  // `ThanksWith.extract`
  // ----------------------------------------------------------------------

  /**
    * One `AUTHOR_THANKS_AFF` match: kept only when its `\thanks` content
    * splits into exactly two parts around a predicative expression; the
    * affiliation is the second part and the name loses its math mode.
    */
  function ThanksWithAuthor(P: Patterns, san: string -> string, m: Match): seq<Author> {
    var aff := Slice(m.g2, 1, -1);
    var parts := SplitBy(aff, FindIter(P.predicative, aff));
    if |parts| != 2 then [] else [Author(san(RemoveAll(MathModeContent, m.g1)), [san(parts[1])])]
  }

  function ThanksWithAuthorOf(P: Patterns, san: string -> string): Match -> seq<Author> {
    (m: Match) => ThanksWithAuthor(P, san, m)
  }

  function ThanksWithExtract(P: Patterns, san: string -> string, content: string): seq<Author> {
    FlatMap(ThanksMatches(P, content), ThanksWithAuthorOf(P, san))
  }

  /** `ThanksWith.extract`. */
  method ThanksWithExtractLoop(P: Patterns, san: string -> string, content: string) returns (authorAff: seq<Author>)
    ensures authorAff == ThanksWithExtract(P, san, content)
  {
    var ms := ThanksMatches(P, content);
    authorAff := [];
    var i := 0;
    while i < |ms|
      invariant 0 <= i <= |ms|
      invariant authorAff == FlatMap(ms[..i], ThanksWithAuthorOf(P, san))
    {
      FlatMapStep(ms, ThanksWithAuthorOf(P, san), i);
      var found := ThanksWithMatch(P, san, ms[i]);
      authorAff := authorAff + found;
      i := i + 1;
    }
    assert ms[..|ms|] == ms;
  }

  /** The body of the `ThanksWith.extract` loop for one match, `continue` included. */
  method ThanksWithMatch(P: Patterns, san: string -> string, m: Match) returns (r: seq<Author>)
    ensures r == ThanksWithAuthor(P, san, m)
  {
    var aff := Slice(m.g2, 1, -1);
    var parts := SplitBy(aff, FindIter(P.predicative, aff));
    if |parts| != 2 {
      return [];
    }
    r := [Author(san(RemoveAll(MathModeContent, m.g1)), [san(parts[1])])];
  }

  /**
    * An author is produced exactly for a match whose `\thanks` content holds
    * one predicative expression, with the text after it as its one
    * affiliation.
    */
  lemma ThanksWithKeepsTwoPartSentences(P: Patterns, san: string -> string, content: string, x: Author)
    ensures var ms := ThanksMatches(P, content);
      x in ThanksWithExtract(P, san, content) <==>
        exists k :: 0 <= k < |ms| &&
          var aff := Slice(ms[k].g2, 1, -1);
          var pm := FindIter(P.predicative, aff);
          |pm| == 1 && x == Author(san(RemoveAll(MathModeContent, ms[k].g1)), [san(aff[pm[0].end..])])
  {
    var ms := ThanksMatches(P, content);
    FlatMapIn(ms, ThanksWithAuthorOf(P, san), x);
    forall k | 0 <= k < |ms|
      ensures var aff := Slice(ms[k].g2, 1, -1); var pm := FindIter(P.predicative, aff);
        ThanksWithAuthor(P, san, ms[k]) ==
          if |pm| == 1 then [Author(san(RemoveAll(MathModeContent, ms[k].g1)), [san(aff[pm[0].end..])])] else []
    {
      var aff := Slice(ms[k].g2, 1, -1);
      var pm := FindIter(P.predicative, aff);
      if |pm| == 1 {
        CompSocThanksScheme.SplitAroundOne(aff, pm);
      }
    }
  }

  // ----------------------------------------------------------------------
  // `ThanksMath.extract`
  // ----------------------------------------------------------------------

  /** The characters `strip("$^{}. ")` removes from an affiliation reference. */
  const AffRefTrim: set<char> := {'$', '^', '{', '}', '.', ' '}

  /** One `MATH_AFFILIATION` match inside a `\thanks{…}`: never skipped. */
  function ThanksMathAffiliation(rm: Match): RefAffiliation {
    RefAffiliation(rm.g1, StripChars(rm.g2, AffRefTrim))
  }

  /** The affiliations one `\thanks{…}` holds, searched in its content with the braces. */
  function ThanksMathAffiliations(P: Patterns, m: Match): seq<RefAffiliation> {
    Map(FindIter(P.mathAffiliation, m.g1), ThanksMathAffiliation)
  }

  function ThanksMathAffiliationsOf(P: Patterns): Match -> seq<RefAffiliation> {
    (m: Match) => ThanksMathAffiliations(P, m)
  }

  /** The text without its `\thanks{…}` commands. */
  function WithoutThanks(c: string): string {
    DeleteAll(c, Map(FindIter(ThanksContent, c), TextOf(c)))
  }

  function ThanksMathExtract(P: Patterns, san: string -> string, content: string): seq<Author> {
    var c := P.joinMulti(MathModeMulti, content);
    var affs := FlatMap(FindIter(ThanksContent, c), ThanksMathAffiliationsOf(P));
    var authors := Map(FindIter(P.mathAuthorRef, WithoutThanks(c)), MathRefAuthor);
    Joined(san, authors, affs)
  }

  /** `ThanksMath.extract`. */
  method ThanksMathExtractLoop(P: Patterns, san: string -> string, content: string) returns (r: seq<Author>)
    ensures r == ThanksMathExtract(P, san, content)
  {
    var c := P.joinMulti(MathModeMulti, content);
    var rest, affiliations := ThanksLoop(P, c);
    var authors := MathRefAuthorsIn(P, rest);
    r := JoinAuthorAndAffilById(san, authors, affiliations);
  }

  /** The `\thanks` loop of `ThanksMath.extract`: it removes each command and gathers its affiliations. */
  method ThanksLoop(P: Patterns, c: string) returns (rest: string, affiliations: seq<RefAffiliation>)
    ensures rest == WithoutThanks(c)
    ensures affiliations == FlatMap(FindIter(ThanksContent, c), ThanksMathAffiliationsOf(P))
  {
    var ms := FindIter(ThanksContent, c);
    rest := c;
    affiliations := [];
    var i := 0;
    while i < |ms|
      invariant 0 <= i <= |ms|
      invariant rest == DeleteAll(c, Map(ms[..i], TextOf(c)))
      invariant affiliations == FlatMap(ms[..i], ThanksMathAffiliationsOf(P))
    {
      RemovedStep(c, ms, i);
      FlatMapStep(ms, ThanksMathAffiliationsOf(P), i);
      rest := Delete(rest, Text(c, ms[i]));
      var found := MathAffiliationsIn(P, ms[i].g1);
      affiliations := affiliations + found;
      i := i + 1;
    }
    assert ms[..|ms|] == ms;
  }

  /** The inner loop over the `MATH_AFFILIATION` matches of one `\thanks{…}`. */
  method MathAffiliationsIn(P: Patterns, cnt: string) returns (affiliations: seq<RefAffiliation>)
    ensures affiliations == Map(FindIter(P.mathAffiliation, cnt), ThanksMathAffiliation)
  {
    var ms := FindIter(P.mathAffiliation, cnt);
    affiliations := [];
    var i := 0;
    while i < |ms|
      invariant 0 <= i <= |ms|
      invariant affiliations == Map(ms[..i], ThanksMathAffiliation)
    {
      MapStep(ms, ThanksMathAffiliation, i);
      affiliations := affiliations + [RefAffiliation(ms[i].g1, StripChars(ms[i].g2, AffRefTrim))];
      i := i + 1;
    }
    assert ms[..|ms|] == ms;
  }

  /** Affiliations come only from inside `\thanks{…}`, one per math reference there. */
  lemma ThanksMathAffiliationSources(P: Patterns, c: string, f: RefAffiliation)
    ensures var ms := FindIter(ThanksContent, c);
      f in FlatMap(ms, ThanksMathAffiliationsOf(P)) <==>
        exists k, j :: 0 <= k < |ms| && 0 <= j < |FindIter(P.mathAffiliation, ms[k].g1)| &&
          f == ThanksMathAffiliation(FindIter(P.mathAffiliation, ms[k].g1)[j])
  {
    var ms := FindIter(ThanksContent, c);
    FlatMapIn(ms, ThanksMathAffiliationsOf(P), f);
    forall k | 0 <= k < |ms| {
      MapAt(FindIter(P.mathAffiliation, ms[k].g1), ThanksMathAffiliation);
    }
    if f in FlatMap(ms, ThanksMathAffiliationsOf(P)) {
      var k :| 0 <= k < |ms| && f in ThanksMathAffiliations(P, ms[k]);
      var j :| 0 <= j < |ThanksMathAffiliations(P, ms[k])| && ThanksMathAffiliations(P, ms[k])[j] == f;
      assert 0 <= j < |FindIter(P.mathAffiliation, ms[k].g1)|;
    }
    if exists k, j :: 0 <= k < |ms| && 0 <= j < |FindIter(P.mathAffiliation, ms[k].g1)| &&
          f == ThanksMathAffiliation(FindIter(P.mathAffiliation, ms[k].g1)[j]) {
      var k, j :| 0 <= k < |ms| && 0 <= j < |FindIter(P.mathAffiliation, ms[k].g1)| &&
          f == ThanksMathAffiliation(FindIter(P.mathAffiliation, ms[k].g1)[j]);
      assert ThanksMathAffiliations(P, ms[k])[j] == f;
    }
  }

  // ----------------------------------------------------------------------
  // `ThanksWithMath.extract`
  // ----------------------------------------------------------------------

  /** `fr"\IEEEcompsocthanksitem {thanks_content}"`. */
  function ThanksItem(m: Match): string {
    "\\IEEEcompsocthanksitem " + Strip(Inner(m))
  }

  /** The command rewritten into the `\IEEEcompsocitemizethanks` form: the names, then one item per `\thanks`. */
  function AsCompSocCommand(content: string): string {
    var c := RemoveAll(MathModeContent, Strip(Slice(content, 1, -1)));
    var ms := FindIter(ThanksContent, c);
    "{" + DeleteAll(c, Map(ms, TextOf(c))) + " \\IEEEcompsocitemizethanks{" + Join(Map(ms, ThanksItem), " ") + "}}"
  }

  /** `ThanksWithMath.extract`: rewritten, then handed to the compsoc extractor. */
  function ThanksWithMathExtract(P: Patterns, san: string -> string, split: string -> seq<string>, content: string): seq<Author> {
    CompSocThanksScheme.ExtractCompSocThanks(P, san, split, AsCompSocCommand(content))
  }

  /** The rewriting loop of `ThanksWithMath.extract`. */
  method AsCompSocCommandLoop(content: string) returns (r: string)
    ensures r == AsCompSocCommand(content)
  {
    var c := RemoveAll(MathModeContent, Strip(Slice(content, 1, -1)));
    var ms := FindIter(ThanksContent, c);
    var rest := c;
    var items: seq<string> := [];
    var i := 0;
    while i < |ms|
      invariant 0 <= i <= |ms|
      invariant rest == DeleteAll(c, Map(ms[..i], TextOf(c)))
      invariant items == Map(ms[..i], ThanksItem)
    {
      RemovedStep(c, ms, i);
      MapStep(ms, ThanksItem, i);
      items := items + ["\\IEEEcompsocthanksitem " + Strip(Inner(ms[i]))];
      rest := Delete(rest, Text(c, ms[i]));
      i := i + 1;
    }
    assert ms[..|ms|] == ms;
    r := "{" + rest + " \\IEEEcompsocitemizethanks{" + Join(items, " ") + "}}";
  }

  /** Every author `ThanksWithMath` produces carries exactly one affiliation, as in the compsoc scheme. */
  lemma ThanksWithMathOneAffiliationEach(P: Patterns, san: string -> string, split: string -> seq<string>, content: string)
    ensures OneAffiliationEach(ThanksWithMathExtract(P, san, split, content))
  {
    CompSocThanksScheme.CompSocOneAffiliationEach(P, san, split, AsCompSocCommand(content));
  }

  /** Every author `ThanksWith` produces carries exactly one affiliation. */
  lemma ThanksWithOneAffiliationEach(P: Patterns, san: string -> string, content: string)
    ensures OneAffiliationEach(ThanksWithExtract(P, san, content))
  {
    FlatMapOneAffiliationEach(ThanksMatches(P, content), ThanksWithAuthorOf(P, san));
  }
}
