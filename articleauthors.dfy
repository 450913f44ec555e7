/**
  * The `\articleauthors{…}` scheme: a run of `\author{name}\aff{affiliation}`
  * pairs, each giving one author with one affiliation.
  */
module ArticleAuthorsScheme {
  import opened PyStr
  import opened Regex
  import opened Patterns
  import opened Authors
  import opened Scheme

  /** `ArticleAuthors.validate`: the command name alone decides. */
  predicate ArticleAuthorsValid(cmdName: string) {
    cmdName == "articleauthors"
  }

  /** The author of one `\author{…}\aff{…}` pair: both brace contents, sanitized. */
  function PairAuthor(san: string -> string, m: Match): Author {
    Author(san(Slice(m.g1, 1, -1)), [san(Slice(m.g2, 1, -1))])
  }

  function PairAuthorOf(san: string -> string): Match -> Author {
    (m: Match) => PairAuthor(san, m)
  }

  /** `ArticleAuthors.extract`. */
  function ArticleAuthorsSpec(P: Patterns, san: string -> string, content: string): seq<Author> {
    Map(FindIter(P.articleAuthorAff, content), PairAuthorOf(san))
  }

  /** `ArticleAuthors.extract`: one author per pair, in the order of the text. */
  method ArticleAuthorsExtract(P: Patterns, san: string -> string, content: string) returns (authorAff: seq<Author>)
    ensures authorAff == ArticleAuthorsSpec(P, san, content)
  {
    var ms := FindIter(P.articleAuthorAff, content);
    authorAff := [];
    var i := 0;
    while i < |ms|
      invariant 0 <= i <= |ms|
      invariant authorAff == Map(ms[..i], PairAuthorOf(san))
    {
      MapStep(ms, PairAuthorOf(san), i);
      var name := san(Slice(ms[i].g1, 1, -1));
      var affiliation := san(Slice(ms[i].g2, 1, -1));
      authorAff := authorAff + [Author(name, [affiliation])];
      i := i + 1;
    }
    assert ms[..|ms|] == ms;
  }

  /**
    * There is one author per pair, in the order the pairs occur: author `k`
    * is the sanitized `\author{}` content of the `k`-th pair, carrying the
    * sanitized `\aff{}` content of that pair as its only affiliation.
    */
  lemma ArticleAuthorsPairs(P: Patterns, san: string -> string, content: string)
    ensures var ms := FindIter(P.articleAuthorAff, content);
      var r := ArticleAuthorsSpec(P, san, content);
      |r| == |ms| && OneAffiliationEach(r) &&
      forall k :: 0 <= k < |r| ==>
        r[k].name == san(Slice(ms[k].g1, 1, -1)) && r[k].affiliations == [san(Slice(ms[k].g2, 1, -1))]
  {
    MapAt(FindIter(P.articleAuthorAff, content), PairAuthorOf(san));
  }
}
