/**
  * The `\authorname{…}` / `\affiliation{…}` scheme: names in
  * `\authorname{}`, affiliations in `\affiliation{}`, linked by `\sup{}`
  * references, or all sharing the one affiliation when there is no `\sup{`.
  */
module AuthorNameScheme {
  import opened PyStr
  import opened Regex
  import opened RegExp
  import opened Patterns
  import opened Authors
  import opened CmdUtil
  import opened Scheme

  /** `AuthorNameAffiliation.validate`. */
  predicate AuthorNameAffiliationValid(content: string) {
    Has(content, "\\authorname") && Has(content, "\\affiliation")
  }

  // ----------------------------------------------------------------------
  // `ext_single_aff`
  // ----------------------------------------------------------------------

  /**
    * `ext_single_aff`: nothing when either pattern misses, else every name
    * of the first match's stripped content with the second match's content
    * as the one affiliation.
    */
  function ExtSingleAff(san: string -> string, split: string -> seq<string>, c: string, authorPattern: MatchAt, affPattern: MatchAt): seq<Author> {
    var namesMatch := Search(authorPattern, c);
    var affMatch := Search(affPattern, c);
    if namesMatch.None? || affMatch.None? then []
    else Shared(san, split(Strip(Inner(namesMatch.value))), san(Inner(affMatch.value)))
  }

  /** `ext_single_aff`. */
  method ExtSingleAffLoop(san: string -> string, split: string -> seq<string>, c: string, authorPattern: MatchAt, affPattern: MatchAt)
    returns (r: seq<Author>)
    ensures r == ExtSingleAff(san, split, c, authorPattern, affPattern)
  {
    var namesMatch := Search(authorPattern, c);
    var affMatch := Search(affPattern, c);
    if namesMatch.None? || affMatch.None? {
      return [];
    }
    var authornames := Strip(Slice(namesMatch.value.g1, 1, -1));
    var affiliation := san(Slice(affMatch.value.g1, 1, -1));
    r := AppendShared(san, [], split(authornames), affiliation);
  }

  /**
    * `ext_single_aff` gives nothing when either pattern misses; otherwise
    * author `k` is the `k`-th separator-split name, and every author shares
    * the one sanitized affiliation.
    */
  lemma ExtSingleAffShares(san: string -> string, split: string -> seq<string>, c: string, authorPattern: MatchAt, affPattern: MatchAt)
    ensures var r := ExtSingleAff(san, split, c, authorPattern, affPattern);
      var namesMatch := Search(authorPattern, c);
      var affMatch := Search(affPattern, c);
      (namesMatch.None? || affMatch.None? ==> r == []) &&
      (namesMatch.Some? && affMatch.Some? ==>
        var names := split(Strip(Inner(namesMatch.value)));
        |r| == |names| &&
        forall k :: 0 <= k < |r| ==> r[k] == Author(san(names[k]), [san(Inner(affMatch.value))]))
  {
    var namesMatch := Search(authorPattern, c);
    var affMatch := Search(affPattern, c);
    if namesMatch.Some? && affMatch.Some? {
      SharedAt(san, split(Strip(Inner(namesMatch.value))), san(Inner(affMatch.value)));
    }
  }

  // ----------------------------------------------------------------------
  // `_ext_multi_aff`
  // ----------------------------------------------------------------------

  /** One `NAME_SUP` match: the sanitized name and the `\sup{…}` content as a list of references. */
  function NameSupAuthor(san: string -> string, n: Match): RefAuthor {
    RefAuthor(san(n.g1), SplitRefStrings(Strip(Slice(n.g2, 1, -1))))
  }

  function NameSupAuthorOf(san: string -> string): Match -> RefAuthor {
    (n: Match) => NameSupAuthor(san, n)
  }

  /** The names of one `\authorname{…}`: the `NAME_SUP` matches of its stripped content. */
  function AuthornameAuthors(P: Patterns, san: string -> string, m: Match): seq<RefAuthor> {
    Map(FindIter(P.nameSup, Strip(Inner(m))), NameSupAuthorOf(san))
  }

  function AuthornameAuthorsOf(P: Patterns, san: string -> string): Match -> seq<RefAuthor> {
    (m: Match) => AuthornameAuthors(P, san, m)
  }

  /**
    * One piece of an `\affiliation{…}` cut at each `\sup`: skipped without a
    * `\sup{…}`; otherwise the name is the whole affiliation content `body`
    * with that one `\sup{…}` deleted, stripped and sanitized.
    */
  function SupPart(san: string -> string, body: string, part: string): (r: seq<RefAffiliation>)
    ensures |r| <= 1
  {
    match Search(SupContent, part)
    case None => []
    case Some(s) => [RefAffiliation(san(Strip(Delete(body, Text(part, s)))), Strip(Inner(s)))]
  }

  function SupPartOf(san: string -> string, body: string): string -> seq<RefAffiliation> {
    (part: string) => SupPart(san, body, part)
  }

  /** The affiliations of one `\affiliation{…}`: one per piece that holds a `\sup{…}`. */
  function SupAffiliations(san: string -> string, m: Match): seq<RefAffiliation> {
    var body := Strip(Inner(m));
    FlatMap(SplitRefCommands("\\sup", body), SupPartOf(san, body))
  }

  function SupAffiliationsOf(san: string -> string): Match -> seq<RefAffiliation> {
    (m: Match) => SupAffiliations(san, m)
  }

  /** `_ext_multi_aff`. */
  function ExtMultiAff(P: Patterns, san: string -> string, c: string): seq<Author> {
    Joined(san,
      FlatMap(FindIter(AuthornameContent, c), AuthornameAuthorsOf(P, san)),
      FlatMap(FindIter(AffiliationContent, c), SupAffiliationsOf(san)))
  }

  /** `_ext_multi_aff`. */
  method ExtMultiAffLoop(P: Patterns, san: string -> string, c: string) returns (r: seq<Author>)
    ensures r == ExtMultiAff(P, san, c)
  {
    var authors := MultiAuthors(P, san, FindIter(AuthornameContent, c));
    var affiliations := MultiAffiliations(san, FindIter(AffiliationContent, c));
    r := JoinAuthorAndAffilById(san, authors, affiliations);
  }

  /** The author loops of `_ext_multi_aff`. */
  method MultiAuthors(P: Patterns, san: string -> string, ms: seq<Match>) returns (authors: seq<RefAuthor>)
    ensures authors == FlatMap(ms, AuthornameAuthorsOf(P, san))
  {
    authors := [];
    var i := 0;
    while i < |ms|
      invariant 0 <= i <= |ms|
      invariant authors == FlatMap(ms[..i], AuthornameAuthorsOf(P, san))
    {
      FlatMapStep(ms, AuthornameAuthorsOf(P, san), i);
      var found := NameSupAuthors(P, san, Strip(Slice(ms[i].g1, 1, -1)));
      authors := authors + found;
      i := i + 1;
    }
    assert ms[..|ms|] == ms;
  }

  /** The inner loop over the `NAME_SUP` matches of one `\authorname{…}` content. */
  method NameSupAuthors(P: Patterns, san: string -> string, text: string) returns (found: seq<RefAuthor>)
    ensures found == Map(FindIter(P.nameSup, text), NameSupAuthorOf(san))
  {
    var ns := FindIter(P.nameSup, text);
    found := [];
    var j := 0;
    while j < |ns|
      invariant 0 <= j <= |ns|
      invariant found == Map(ns[..j], NameSupAuthorOf(san))
    {
      MapStep(ns, NameSupAuthorOf(san), j);
      var ref := Strip(Slice(ns[j].g2, 1, -1));
      found := found + [RefAuthor(san(ns[j].g1), SplitRefStrings(ref))];
      j := j + 1;
    }
    assert ns[..|ns|] == ns;
  }

  /** The affiliation loops of `_ext_multi_aff`. */
  method MultiAffiliations(san: string -> string, ms: seq<Match>) returns (affiliations: seq<RefAffiliation>)
    ensures affiliations == FlatMap(ms, SupAffiliationsOf(san))
  {
    affiliations := [];
    var i := 0;
    while i < |ms|
      invariant 0 <= i <= |ms|
      invariant affiliations == FlatMap(ms[..i], SupAffiliationsOf(san))
    {
      FlatMapStep(ms, SupAffiliationsOf(san), i);
      var found := SupParts(san, Strip(Slice(ms[i].g1, 1, -1)));
      affiliations := affiliations + found;
      i := i + 1;
    }
    assert ms[..|ms|] == ms;
  }

  /** The inner loop over the `\sup` pieces of one affiliation content. */
  method SupParts(san: string -> string, body: string) returns (found: seq<RefAffiliation>)
    ensures found == FlatMap(SplitRefCommands("\\sup", body), SupPartOf(san, body))
  {
    found := SupPartsLoop(san, body, SplitRefCommands("\\sup", body));
  }

  /** The loop of `SupParts` over given pieces. */
  method SupPartsLoop(san: string -> string, body: string, parts: seq<string>) returns (found: seq<RefAffiliation>)
    ensures found == FlatMap(parts, SupPartOf(san, body))
  {
    found := [];
    var j := 0;
    while j < |parts|
      invariant 0 <= j <= |parts|
      invariant found == FlatMap(parts[..j], SupPartOf(san, body))
    {
      FlatMapStep(parts, SupPartOf(san, body), j);
      var sup := Search(SupContent, parts[j]);
      if sup.Some? {
        var name := Strip(Delete(body, Text(parts[j], sup.value)));
        var ref := Strip(Slice(sup.value.g1, 1, -1));
        found := found + [RefAffiliation(san(name), ref)];
      }
      j := j + 1;
    }
    assert parts[..|parts|] == parts;
  }

  /**
    * Each affiliation of `_ext_multi_aff` comes from one piece of one
    * `\affiliation{…}` that holds a `\sup{…}`: its reference is that
    * `\sup`'s stripped content and its name the WHOLE affiliation content
    * with only that one `\sup{…}` deleted, so the other pieces' text stays in.
    */
  lemma SupAffiliationsFrom(san: string -> string, m: Match, f: RefAffiliation)
    ensures var body := Strip(Inner(m));
      var parts := SplitRefCommands("\\sup", body);
      |SupAffiliations(san, m)| <= |parts| &&
      (f in SupAffiliations(san, m) <==>
        exists k :: 0 <= k < |parts| && Search(SupContent, parts[k]).Some? &&
          var s := Search(SupContent, parts[k]).value;
          f == RefAffiliation(san(Strip(Delete(body, Text(parts[k], s)))), Strip(Inner(s))))
  {
    var body := Strip(Inner(m));
    SupPiecesFrom(san, body, SplitRefCommands("\\sup", body), f);
  }

  /** `SupAffiliationsFrom` over given pieces of a given content. */
  lemma SupPiecesFrom(san: string -> string, body: string, parts: seq<string>, f: RefAffiliation)
    ensures var r := FlatMap(parts, SupPartOf(san, body));
      |r| <= |parts| &&
      (f in r <==>
        exists k :: 0 <= k < |parts| && Search(SupContent, parts[k]).Some? &&
          var s := Search(SupContent, parts[k]).value;
          f == RefAffiliation(san(Strip(Delete(body, Text(parts[k], s)))), Strip(Inner(s))))
  {
    var g := SupPartOf(san, body);
    FlatMapAtMostOne(parts, g);
    FlatMapIn(parts, g, f);
  }

  // ----------------------------------------------------------------------
  // `AuthorNameAffiliation.extract`
  // ----------------------------------------------------------------------

  /** The content without braces, with repeated `\sup`s joined. */
  function AuthorNameText(P: Patterns, content: string): string {
    P.joinMulti(SupMulti, Strip(Unbraced(content)))
  }

  /** No `\sup{` and exactly one `\affiliation{`: every name shares that affiliation. */
  predicate SingleAffiliationPath(c: string) {
    !Contains(c, "\\sup{") && Count(c, "\\affiliation{") == 1
  }

  /** `AuthorNameAffiliation.extract`. */
  function AuthorNameAffiliationSpec(P: Patterns, san: string -> string, split: string -> seq<string>, content: string): seq<Author> {
    var c := AuthorNameText(P, content);
    if SingleAffiliationPath(c) then ExtSingleAff(san, split, c, AuthornameContent, AffiliationContent)
    else ExtMultiAff(P, san, c)
  }

  /** `AuthorNameAffiliation.extract`. */
  method AuthorNameAffiliationExtract(P: Patterns, san: string -> string, split: string -> seq<string>, content: string)
    returns (r: seq<Author>)
    ensures r == AuthorNameAffiliationSpec(P, san, split, content)
  {
    var c := AuthorNameText(P, content);
    if !Contains(c, "\\sup{") && Count(c, "\\affiliation{") == 1 {
      r := ExtSingleAffLoop(san, split, c, AuthornameContent, AffiliationContent);
    } else {
      r := ExtMultiAffLoop(P, san, c);
    }
  }

  /** `ext_single_aff` gives every author one affiliation, the same for all of them. */
  lemma ExtSingleAffSame(san: string -> string, split: string -> seq<string>, c: string, authorPattern: MatchAt, affPattern: MatchAt)
    ensures var r := ExtSingleAff(san, split, c, authorPattern, affPattern);
      OneAffiliationEach(r) && forall i, j :: 0 <= i < |r| && 0 <= j < |r| ==> r[i].affiliations == r[j].affiliations
  {
    ExtSingleAffShares(san, split, c, authorPattern, affPattern);
  }

  /**
    * On the single-affiliation path, which needs an `\affiliation{`, every
    * author has exactly one affiliation and all of them the same one; on
    * the other path there is one author per `NAME_SUP` match inside the
    * `\authorname{…}`s.
    */
  lemma AuthorNameAffiliationPaths(P: Patterns, san: string -> string, split: string -> seq<string>, content: string)
    ensures var c := AuthorNameText(P, content);
      var r := AuthorNameAffiliationSpec(P, san, split, content);
      (SingleAffiliationPath(c) ==>
        Contains(c, "\\affiliation{") && OneAffiliationEach(r) &&
        forall i, j :: 0 <= i < |r| && 0 <= j < |r| ==> r[i].affiliations == r[j].affiliations) &&
      (!SingleAffiliationPath(c) ==>
        |r| == |FlatMap(FindIter(AuthornameContent, c), AuthornameAuthorsOf(P, san))|)
  {
    var c := AuthorNameText(P, content);
    if SingleAffiliationPath(c) {
      CountPositiveIffContains(c, "\\affiliation{");
      ExtSingleAffSame(san, split, c, AuthornameContent, AffiliationContent);
    }
  }
}
