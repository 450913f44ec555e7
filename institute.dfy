/**
  * The `\institute{…}` scheme: authors separated by `\and`, each run of
  * names followed by the `\institute{}` that is their affiliation.
  */
module InstituteScheme {
  import opened PyStr
  import opened Regex
  import opened Patterns
  import opened Authors
  import opened Scheme
  import Latex

  /**
    * `Institute.validate`: `\institute` occurs in the lower-cased content,
    * and the lower-cased content without its outer characters, stripped, is
    * a run of names each followed by an `\institute{…}`.
    */
  predicate InstituteValid(P: Patterns, content: string) {
    var low := Lower(content);
    if !Contains(low, "\\institute") then false
    else P.institutesShape(Strip(Slice(low, 1, -1)))
  }

  /** The text `Institute.extract` scans: LaTeX newlines removed, repeated `\institute{}`s joined. */
  function InstituteText(P: Patterns, content: string): string {
    P.joinMulti(InstituteMulti, Latex.RemoveLatexNewlines(content))
  }

  /** The names before one `\institute{…}`: the stripped name part, split at the separators. */
  function InstituteNamesOf(split: string -> seq<string>): Match -> seq<string> {
    (m: Match) => split(Strip(m.g1))
  }

  /** The sanitized brace content of one `\institute{…}`. */
  function InstituteAffiliationOf(san: string -> string): Match -> string {
    (m: Match) => san(Slice(m.g2, 1, -1))
  }

  /** `Institute.extract`. */
  function InstituteSpec(P: Patterns, san: string -> string, split: string -> seq<string>, content: string): seq<Author> {
    FlatMap(FindIter(P.authorInstitute, InstituteText(P, content)), SharedOf(san, InstituteNamesOf(split), InstituteAffiliationOf(san)))
  }

  /** `Institute.extract`. */
  method InstituteExtract(P: Patterns, san: string -> string, split: string -> seq<string>, content: string)
    returns (r: seq<Author>)
    ensures r == InstituteSpec(P, san, split, content)
  {
    var c := InstituteText(P, content);
    r := SharedEach(san, InstituteNamesOf(split), InstituteAffiliationOf(san), FindIter(P.authorInstitute, c));
  }

  /**
    * Every author `Institute` produces is one of the names before some
    * `\institute{…}`, carrying that group's sanitized content as its only
    * affiliation; and every such name gives an author.
    */
  lemma InstituteShares(P: Patterns, san: string -> string, split: string -> seq<string>, content: string, a: Author)
    ensures OneAffiliationEach(InstituteSpec(P, san, split, content))
    ensures var ms := FindIter(P.authorInstitute, InstituteText(P, content));
      a in InstituteSpec(P, san, split, content) <==>
        exists k, j :: 0 <= k < |ms| && 0 <= j < |split(Strip(ms[k].g1))| &&
          a == Author(san(split(Strip(ms[k].g1))[j]), [san(Slice(ms[k].g2, 1, -1))])
  {
    var ms := FindIter(P.authorInstitute, InstituteText(P, content));
    SharedEachIn(san, InstituteNamesOf(split), InstituteAffiliationOf(san), ms, a);
  }
}
