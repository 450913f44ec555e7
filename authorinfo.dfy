/**
  * The `\authorinfo{names}{affiliation}{email}` schemes (also spelt
  * `\oneauthor` and `\twoauthors`): every name shares the second argument
  * (`AuthorInfoSingle`), or names and affiliations carry math-mode
  * references (`AuthorInfoMath`). The third argument is never read.
  */
module AuthorInfoScheme {
  import opened PyStr
  import opened Regex
  import opened RegExp
  import opened Patterns
  import opened Authors
  import opened CmdUtil
  import opened Scheme
  import AffiliationScheme

  // ----------------------------------------------------------------------
  // Validators
  // ----------------------------------------------------------------------

  /** The command names `AuthorInfoSingle` handles. */
  const InfoCommands: seq<string> := ["twoauthors", "oneauthor", "authorinfo"]

  /** `AuthorInfoSingle.validate`: the argument groups are searched in the lower-cased content. */
  predicate AuthorInfoSingleValid(P: Patterns, cmdName: string, content: string) {
    if cmdName !in InfoCommands then false
    else Search(P.extAuthorinfo, Lower(content)).Some?
  }

  /** `AuthorInfoMath.validate`. */
  predicate AuthorInfoMathValid(cmdName: string, content: string) {
    if cmdName != "authorinfo" then false
    else Search(MathModeContent, content).Some?
  }

  /** `$…$` with at least one character, none of them `$`, spans `s[i..j + 1]`. */
  predicate MathSpan(s: string, i: int, j: int) {
    0 <= i && i + 1 < j < |s| && s[i] == '$' && s[j] == '$' && forall k :: i < k < j ==> s[k] != '$'
  }

  /**
    * `AuthorInfoMath` accepts exactly the `authorinfo` commands whose content
    * holds a math span: two `$` with at least one character, and no `$`,
    * between them.
    */
  lemma AuthorInfoMathValidIff(cmdName: string, content: string)
    ensures AuthorInfoMathValid(cmdName, content) <==>
      cmdName == "authorinfo" && exists i, j :: MathSpan(content, i, j)
  {
    var s := content;
    var r := Search(MathModeContent, s);
    if r.Some? {
      var m := r.value;
      assert MathModeAt(s, m.start) == r;
      assert MathSpan(s, m.start, m.end - 1);
    }
    if exists i, j :: MathSpan(s, i, j) {
      var i, j :| MathSpan(s, i, j);
      MathSpanFound(s, i, j);
      assert TryAt(MathModeContent, s, i).Some?;
      assert !NoneIn(MathModeContent, s, 0, |s|);
    }
  }

  /** A math span starting at `i` is what the math-mode pattern matches at `i`. */
  lemma MathSpanFound(s: string, i: int, j: int)
    requires MathSpan(s, i, j)
    ensures MathModeAt(s, i) == Some(Match(i, j + 1, s[i + 1..j], ""))
  {
    assert s[j..j + 1] == "$";
    assert OccursAt(s, "$", j);
    forall k | i + 1 <= k < j
      ensures !OccursAt(s, "$", k)
    {
      assert s[k..k + 1] == [s[k]];
    }
    var f := FindFrom(s, "$", i + 1);
    assert f != -1 && f <= j;
    assert s[f..f + 1] == "$";
  }

  /** The command names of `AuthorInfoMath` are among those of `AuthorInfoSingle`. */
  lemma AuthorInfoCommands(P: Patterns, cmdName: string, content: string)
    ensures AuthorInfoMathValid(cmdName, content) ==> cmdName in InfoCommands
    ensures AuthorInfoSingleValid(P, cmdName, content) ==> cmdName in InfoCommands
  {
  }

  // ----------------------------------------------------------------------
  // `AuthorInfoSingle.extract`
  // ----------------------------------------------------------------------

  /**
    * `AuthorInfoSingle.extract`: nothing when the argument groups are not
    * found, else every name of the first group with the second group as its
    * one affiliation.
    */
  function AuthorInfoSingleExtract(P: Patterns, san: string -> string, split: string -> seq<string>, content: string): seq<Author> {
    match Search(P.extAuthorinfo, content)
    case None => []
    case Some(m) => Shared(san, split(Slice(m.g1, 1, -1)), san(Slice(m.g2, 1, -1)))
  }

  /**
    * Without the argument groups there are no authors; with them, author `k`
    * is the `k`-th name of the first group, carrying the sanitized second
    * group as its only affiliation.
    */
  lemma AuthorInfoSingleShares(P: Patterns, san: string -> string, split: string -> seq<string>, content: string)
    ensures var r := AuthorInfoSingleExtract(P, san, split, content);
      match Search(P.extAuthorinfo, content)
      case None => r == []
      case Some(m) =>
        var names := split(Slice(m.g1, 1, -1));
        |r| == |names| && forall k :: 0 <= k < |r| ==> r[k] == Author(san(names[k]), [san(Slice(m.g2, 1, -1))])
  {
    match Search(P.extAuthorinfo, content) {
      case None =>
      case Some(m) => SharedAt(san, split(Slice(m.g1, 1, -1)), san(Slice(m.g2, 1, -1)));
    }
  }

  // ----------------------------------------------------------------------
  // `AuthorInfoMath.extract`
  // ----------------------------------------------------------------------

  /** The characters `strip("{}^ ")` removes from a name's math reference. */
  const InfoRefTrim: set<char> := {'{', '}', '^', ' '}

  /**
    * One name part: skipped without a math reference; otherwise the name is
    * the part with its first `$…$` deleted, and the references are that
    * span's content, stripped and split.
    */
  function InfoAuthor(part: string): (r: seq<RefAuthor>)
    ensures |r| <= 1
  {
    match Search(MathModeContent, part)
    case None => []
    case Some(rm) => [RefAuthor(Delete(part, Text(part, rm)), SplitRefStrings(StripChars(rm.g1, InfoRefTrim)))]
  }

  /** The name parts of the first argument group. */
  function InfoNameParts(split: string -> seq<string>, m: Match): seq<string> {
    split(Strip(Slice(m.g1, 1, -1)))
  }

  /** `AuthorInfoMath.extract`. */
  function AuthorInfoMathSpec(P: Patterns, san: string -> string, split: string -> seq<string>, content: string): seq<Author> {
    match Search(P.extAuthorinfo, content)
    case None => []
    case Some(m) =>
      Joined(san, FlatMap(InfoNameParts(split, m), InfoAuthor),
        AffiliationScheme.MathAffiliationsOfText(P, Strip(Slice(m.g2, 1, -1))))
  }

  /** `AuthorInfoMath.extract`. */
  method AuthorInfoMathExtract(P: Patterns, san: string -> string, split: string -> seq<string>, content: string)
    returns (r: seq<Author>)
    ensures r == AuthorInfoMathSpec(P, san, split, content)
  {
    var m := Search(P.extAuthorinfo, content);
    if m.None? {
      return [];
    }
    var authors := InfoAuthors(InfoNameParts(split, m.value));
    var affiliations := AffiliationScheme.MathAffiliationsIn(P, Strip(Slice(m.value.g2, 1, -1)));
    r := JoinAuthorAndAffilById(san, authors, affiliations);
  }

  /** The loop over the name parts of `AuthorInfoMath.extract`. */
  method InfoAuthors(parts: seq<string>) returns (authors: seq<RefAuthor>)
    ensures authors == FlatMap(parts, InfoAuthor)
  {
    authors := [];
    var i := 0;
    while i < |parts|
      invariant 0 <= i <= |parts|
      invariant authors == FlatMap(parts[..i], InfoAuthor)
    {
      FlatMapStep(parts, InfoAuthor, i);
      var part := parts[i];
      var refMatch := Search(MathModeContent, part);
      if refMatch.Some? {
        var refContent := StripChars(refMatch.value.g1, InfoRefTrim);
        authors := authors + [RefAuthor(Delete(part, Text(part, refMatch.value)), SplitRefStrings(refContent))];
      }
      i := i + 1;
    }
    assert parts[..|parts|] == parts;
  }

  /**
    * `AuthorInfoMath` keeps only the name parts that carry a math reference:
    * there are at most as many authors as parts, and each author comes from
    * one such part, named by the part without its `$…$` and referring to the
    * ids inside it.
    */
  lemma InfoAuthorsFrom(parts: seq<string>, ra: RefAuthor)
    ensures |FlatMap(parts, InfoAuthor)| <= |parts|
    ensures ra in FlatMap(parts, InfoAuthor) <==>
      exists k :: 0 <= k < |parts| && Search(MathModeContent, parts[k]).Some? &&
        var rm := Search(MathModeContent, parts[k]).value;
        ra == RefAuthor(Delete(parts[k], Text(parts[k], rm)), SplitRefStrings(StripChars(rm.g1, InfoRefTrim)))
  {
    FlatMapAtMostOne(parts, InfoAuthor);
    FlatMapIn(parts, InfoAuthor, ra);
  }

  /** Without the argument groups `AuthorInfoMath` finds nothing; with them, one author per referenced name part. */
  lemma AuthorInfoMathAuthors(P: Patterns, san: string -> string, split: string -> seq<string>, content: string)
    ensures var r := AuthorInfoMathSpec(P, san, split, content);
      match Search(P.extAuthorinfo, content)
      case None => r == []
      case Some(m) => |r| == |FlatMap(InfoNameParts(split, m), InfoAuthor)| <= |InfoNameParts(split, m)|
  {
    match Search(P.extAuthorinfo, content) {
      case None =>
      case Some(m) => FlatMapAtMostOne(InfoNameParts(split, m), InfoAuthor);
    }
  }
}
