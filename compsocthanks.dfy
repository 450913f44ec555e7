/**
  * The `\IEEEcompsocitemizethanks` scheme: names first, then one
  * `\IEEEcompsocthanksitem` per sentence "names are with affiliation",
  * matched back to the names.
  */
module CompSocThanksScheme {
  import opened PyStr
  import opened Regex
  import opened RegExp
  import opened Patterns
  import opened Authors
  import opened Scheme

  /** `CompSocItemizeThanks.validate`: both commands, compared case-sensitively. */
  predicate CompSocItemizeThanksValid(content: string) {
    Contains(content, "\\IEEEcompsocitemizethanks") && Contains(content, "\\IEEEcompsocthanksitem")
  }

  // ----------------------------------------------------------------------
  // `_split_name_and_affiliation`
  // ----------------------------------------------------------------------

  /** A name part and the affiliation part after the predicative expression. */
  datatype NameAff = NameAff(name: string, affiliation: string)

  /**
    * `_split_name_and_affiliation`: one stripped pair when the text splits
    * into exactly two parts around a predicative expression ("is with",
    * "are also at the", …), nothing when it splits into fewer or more.
    */
  function SplitNameAndAffiliation(P: Patterns, affiliation: string): (r: seq<NameAff>)
    ensures |r| <= 1
    ensures r != [] <==> |FindIter(P.predicative, affiliation)| == 1
  {
    var ms := FindIter(P.predicative, affiliation);
    var parts := SplitBy(affiliation, ms);
    if |parts| != 2 then [] else [NameAff(Strip(parts[0]), Strip(parts[1]))]
  }

  /** The pair is the stripped text before and after the one predicative expression. */
  lemma SplitNameAndAffiliationPair(P: Patterns, affiliation: string)
    requires |FindIter(P.predicative, affiliation)| == 1
    ensures var ms := FindIter(P.predicative, affiliation);
      SplitNameAndAffiliation(P, affiliation)
        == [NameAff(Strip(affiliation[..ms[0].start]), Strip(affiliation[ms[0].end..]))]
  {
    var ms := FindIter(P.predicative, affiliation);
    SplitAroundOne(affiliation, ms);
  }

  lemma SplitAroundOne(s: string, ms: seq<Match>)
    requires Ordered(s, ms, 0) && |ms| == 1
    ensures SplitBy(s, ms) == [s[..ms[0].start], s[ms[0].end..]]
  {
    assert SplitFrom(s, ms[1..], ms[0].end) == [s[ms[0].end..]];
    assert s[0..ms[0].start] == s[..ms[0].start];
  }

  // ----------------------------------------------------------------------
  // `_match_name_with_affiliation`
  // ----------------------------------------------------------------------

  /** The name part says the affiliation is everyone's. */
  predicate IsAllAuthors(namePart: string) {
    var l := Lower(Strip(namePart));
    l == "all authors" || l == "all the authors" || l == "authors"
  }

  /** `f" {author.split(" ")[-1]}".lower()`. */
  function LastName(author: string): string {
    var words := Split(author, " ");
    Lower(" " + words[|words| - 1])
  }

  /** The author is named in the lower-cased name part: in full, by last name, or as one of "the other authors". */
  predicate Mentions(namePart: string, author: string) {
    var l := Lower(namePart);
    || Contains(l, Lower(author))
    || Contains(l, LastName(author))
    || Contains(l, Replace(LastName(author), "-", " "))
    || Contains(l, "the other authors")
  }

  /** What one author of the list contributes. */
  function Matched(san: string -> string, namePart: string, affiliationPart: string, author: string): (r: seq<Author>) {
    if Mentions(namePart, author) then [Author(san(author), [san(affiliationPart)])] else []
  }

  function MatchedOf(san: string -> string, namePart: string, affiliationPart: string): string -> seq<Author> {
    (author: string) => Matched(san, namePart, affiliationPart, author)
  }

  /** `_match_name_with_affiliation`. */
  function MatchNameWithAffiliation(san: string -> string, authors: seq<string>, namePart: string, affiliationPart: string): seq<Author> {
    if IsAllAuthors(namePart) then Shared(san, authors, san(affiliationPart))
    else FlatMap(authors, MatchedOf(san, namePart, affiliationPart))
  }

  /** `_match_name_with_affiliation`, with its loop over the authors. */
  method MatchNameWithAffiliationLoop(san: string -> string, authors: seq<string>, namePart: string, affiliationPart: string)
    returns (authorAffs: seq<Author>)
    ensures authorAffs == MatchNameWithAffiliation(san, authors, namePart, affiliationPart)
  {
    if IsAllAuthors(namePart) {
      return Shared(san, authors, san(affiliationPart));
    }
    authorAffs := [];
    var i := 0;
    while i < |authors|
      invariant 0 <= i <= |authors|
      invariant authorAffs == FlatMap(authors[..i], MatchedOf(san, namePart, affiliationPart))
    {
      FlatMapStep(authors, MatchedOf(san, namePart, affiliationPart), i);
      if Mentions(namePart, authors[i]) {
        authorAffs := authorAffs + [Author(san(authors[i]), [san(affiliationPart)])];
      }
      i := i + 1;
    }
    assert authors[..|authors|] == authors;
  }

  /** "all authors", "all the authors" or "authors": every author, in order, gets the affiliation. */
  lemma AllAuthorsShare(san: string -> string, authors: seq<string>, namePart: string, affiliationPart: string)
    requires IsAllAuthors(namePart)
    ensures var r := MatchNameWithAffiliation(san, authors, namePart, affiliationPart);
      |r| == |authors| && forall k :: 0 <= k < |r| ==> r[k] == Author(san(authors[k]), [san(affiliationPart)])
  {
    SharedAt(san, authors, san(affiliationPart));
  }

  /**
    * Otherwise an author gets the affiliation exactly when the name part
    * mentions it, and no author is listed twice for one name part.
    */
  lemma MatchedExactlyMentioned(san: string -> string, authors: seq<string>, namePart: string, affiliationPart: string, x: Author)
    requires !IsAllAuthors(namePart)
    ensures var r := MatchNameWithAffiliation(san, authors, namePart, affiliationPart);
      && |r| <= |authors|
      && (x in r <==> exists k :: 0 <= k < |authors| && Mentions(namePart, authors[k]) && x == Author(san(authors[k]), [san(affiliationPart)]))
  {
    FlatMapIn(authors, MatchedOf(san, namePart, affiliationPart), x);
    FlatMapAtMostOne(authors, MatchedOf(san, namePart, affiliationPart));
  }

  lemma MatchOneAffiliationEach(san: string -> string, authors: seq<string>, namePart: string, affiliationPart: string)
    ensures OneAffiliationEach(MatchNameWithAffiliation(san, authors, namePart, affiliationPart))
  {
    if !IsAllAuthors(namePart) {
      FlatMapOneAffiliationEach(authors, MatchedOf(san, namePart, affiliationPart));
    }
  }

  // ----------------------------------------------------------------------
  // `_join_thanks`
  // ----------------------------------------------------------------------

  /** `m.group("cnt")[1:-1].strip()`. */
  function ItemText(m: Match): string {
    Strip(Slice(m.g1, 1, -1))
  }

  /**
    * `_join_thanks`: the text before the first itemize block, one block
    * holding the contents of all of them joined by spaces, and the text
    * after the last one. With no block, `start` and `end` stay `-1` and the
    * empty block is spliced in before the last character.
    */
  function JoinThanks(content: string): string {
    JoinedBlocks(content, FindIter(CompSocItemizeContent, content))
  }

  /** The blocks `ms` of `content` joined into one, from the start of the first to the end of the last. */
  function JoinedBlocks(content: string, ms: seq<Match>): string {
    var start := if ms == [] then -1 else ms[0].start;
    var end := if ms == [] then -1 else ms[|ms| - 1].end;
    Spliced(content, start, end, Map(ms, ItemText))
  }

  /** The text before `start`, one block holding `thanks`, and the text after `end`. */
  function Spliced(content: string, start: int, end: int, thanks: seq<string>): string {
    Slice(content, 0, start) + " \\IEEEcompsocitemizethanks{" + Join(thanks, " ") + "} " + Slice(content, end, |content|)
  }

  /** `_join_thanks`, with its loop over the itemize blocks. */
  method JoinThanksLoop(content: string) returns (r: string)
    ensures r == JoinThanks(content)
  {
    var ms := FindIter(CompSocItemizeContent, content);
    r := JoinBlocksLoop(content, ms);
  }

  /** The loop over the itemize blocks: their texts gathered, the first start and the last end kept. */
  method JoinBlocksLoop(content: string, ms: seq<Match>) returns (r: string)
    ensures r == JoinedBlocks(content, ms)
  {
    var thanks: seq<string> := [];
    var start: int := -1;
    var end: int := -1;
    var i := 0;
    while i < |ms|
      invariant 0 <= i <= |ms|
      invariant thanks == Map(ms[..i], ItemText)
      invariant start == if i == 0 then -1 else ms[0].start
      invariant end == if i == 0 then -1 else ms[i - 1].end
    {
      MapStep(ms, ItemText, i);
      if start == -1 {
        start := ms[i].start;
      }
      thanks := thanks + [ItemText(ms[i])];
      end := ms[i].end;
      i := i + 1;
    }
    assert ms[..|ms|] == ms;
    r := Spliced(content, start, end, thanks);
  }

  /** Without an itemize block, an empty one is spliced in before the last character. */
  lemma JoinThanksNoBlock(content: string)
    requires FindIter(CompSocItemizeContent, content) == [] && content != ""
    ensures JoinThanks(content) ==
      content[..|content| - 1] + " \\IEEEcompsocitemizethanks{} " + content[|content| - 1..]
  {
  }

  /** With blocks, the text around them is kept and the blocks are replaced by one at the first block's position. */
  lemma JoinThanksKeepsOutside(content: string)
    requires FindIter(CompSocItemizeContent, content) != []
    ensures var ms := FindIter(CompSocItemizeContent, content);
      var r := JoinThanks(content);
      StartsWith(r, content[..ms[0].start] + " \\IEEEcompsocitemizethanks{") &&
      EndsWith(r, "} " + content[ms[|ms| - 1].end..])
  {
    var ms := FindIter(CompSocItemizeContent, content);
    JoinedBlocksFrame(content, ms);
  }

  lemma JoinedBlocksFrame(content: string, ms: seq<Match>)
    requires ms != [] && ms[0].start <= |content| && ms[|ms| - 1].end <= |content|
    ensures var r := JoinedBlocks(content, ms);
      StartsWith(r, content[..ms[0].start] + " \\IEEEcompsocitemizethanks{") &&
      EndsWith(r, "} " + content[ms[|ms| - 1].end..])
  {
    SplicedFrame(content, ms[0].start, ms[|ms| - 1].end, Map(ms, ItemText));
  }

  lemma SplicedFrame(content: string, start: nat, end: nat, thanks: seq<string>)
    requires start <= |content| && end <= |content|
    ensures var r := Spliced(content, start, end, thanks);
      StartsWith(r, content[..start] + " \\IEEEcompsocitemizethanks{") && EndsWith(r, "} " + content[end..])
  {
    var head := content[..start] + " \\IEEEcompsocitemizethanks{";
    var tail := "} " + content[end..];
    assert Slice(content, 0, start) == content[..start];
    assert Slice(content, end, |content|) == content[end..];
    assert Spliced(content, start, end, thanks) == head + Join(thanks, " ") + tail;
    Framed(head, Join(thanks, " "), tail);
  }

  lemma Framed(head: string, mid: string, tail: string)
    ensures StartsWith(head + mid + tail, head) && EndsWith(head + mid + tail, tail)
  {
    var r := head + mid + tail;
    assert r[..|head|] == head;
    assert r[|r| - |tail|..] == tail;
  }

  // ----------------------------------------------------------------------
  // `extract_compsoc_thanks`
  // ----------------------------------------------------------------------

  /** What one `\IEEEcompsocthanksitem` contributes: its sentence, when it splits in two, matched to the names. */
  function ItemAuthors(P: Patterns, san: string -> string, authors: seq<string>, part: string): seq<Author> {
    var ps := SplitNameAndAffiliation(P, part);
    if ps == [] then [] else MatchNameWithAffiliation(san, authors, san(ps[0].name), ps[0].affiliation)
  }

  function ItemAuthorsOf(P: Patterns, san: string -> string, authors: seq<string>): string -> seq<Author> {
    (part: string) => ItemAuthors(P, san, authors, part)
  }

  /** The names: the sanitized text with the itemize block removed, split at the separators. */
  function CompSocNames(san: string -> string, split: string -> seq<string>, c: string, m: Match): seq<string> {
    split(san(Delete(c, Text(c, m))))
  }

  /** The `\IEEEcompsocthanksitem` parts of the block. */
  function CompSocItems(m: Match): seq<string> {
    Lines(ItemText(m), "\\IEEEcompsocthanksitem")
  }

  /** `extract_compsoc_thanks` after `_join_thanks`. */
  function ExtractJoined(P: Patterns, san: string -> string, split: string -> seq<string>, c: string): seq<Author> {
    match Search(CompSocItemizeContent, c)
    case None => []
    case Some(m) => FlatMap(CompSocItems(m), ItemAuthorsOf(P, san, CompSocNames(san, split, c, m)))
  }

  /** `extract_compsoc_thanks`. */
  function ExtractCompSocThanks(P: Patterns, san: string -> string, split: string -> seq<string>, content: string): seq<Author> {
    ExtractJoined(P, san, split, JoinThanks(content))
  }

  /** `extract_compsoc_thanks`, with its loop over the items. */
  method ExtractCompSocThanksLoop(P: Patterns, san: string -> string, split: string -> seq<string>, content: string)
    returns (authorAffs: seq<Author>)
    ensures authorAffs == ExtractCompSocThanks(P, san, split, content)
  {
    var c := JoinThanksLoop(content);
    authorAffs := ExtractJoinedLoop(P, san, split, c);
  }

  method ExtractJoinedLoop(P: Patterns, san: string -> string, split: string -> seq<string>, c: string)
    returns (authorAffs: seq<Author>)
    ensures authorAffs == ExtractJoined(P, san, split, c)
  {
    var found := Search(CompSocItemizeContent, c);
    if found.None? {
      return [];
    }
    var m := found.value;
    var authors := CompSocNames(san, split, c, m);
    authorAffs := ItemsLoop(P, san, authors, CompSocItems(m));
  }

  /** The loop over the items of the list: the authors of each item, in order. */
  method ItemsLoop(P: Patterns, san: string -> string, authors: seq<string>, items: seq<string>)
    returns (authorAffs: seq<Author>)
    ensures authorAffs == FlatMap(items, ItemAuthorsOf(P, san, authors))
  {
    authorAffs := [];
    var i := 0;
    while i < |items|
      invariant 0 <= i <= |items|
      invariant authorAffs == FlatMap(items[..i], ItemAuthorsOf(P, san, authors))
    {
      FlatMapStep(items, ItemAuthorsOf(P, san, authors), i);
      var more := ItemAuthorsLoop(P, san, authors, items[i]);
      authorAffs := authorAffs + more;
      i := i + 1;
    }
    assert items[..|items|] == items;
  }

  /** The inner loop over the (at most one) pair of an item. */
  method ItemAuthorsLoop(P: Patterns, san: string -> string, authors: seq<string>, part: string) returns (r: seq<Author>)
    ensures r == ItemAuthors(P, san, authors, part)
  {
    var ps := SplitNameAndAffiliation(P, part);
    r := [];
    if ps != [] {
      r := MatchNameWithAffiliationLoop(san, authors, san(ps[0].name), ps[0].affiliation);
    }
  }

  /** Every author the scheme produces carries exactly one affiliation. */
  lemma CompSocOneAffiliationEach(P: Patterns, san: string -> string, split: string -> seq<string>, content: string)
    ensures OneAffiliationEach(ExtractCompSocThanks(P, san, split, content))
  {
    var c := JoinThanks(content);
    assert ExtractCompSocThanks(P, san, split, content) == ExtractJoined(P, san, split, c);
    match Search(CompSocItemizeContent, c)
    case None =>
    case Some(m) =>
      var authors := CompSocNames(san, split, c, m);
      forall part ensures OneAffiliationEach(ItemAuthorsOf(P, san, authors)(part)) {
        var ps := SplitNameAndAffiliation(P, part);
        if ps != [] {
          MatchOneAffiliationEach(san, authors, san(ps[0].name), ps[0].affiliation);
        }
      }
      FlatMapOneAffiliationEach(CompSocItems(m), ItemAuthorsOf(P, san, authors));
  }

  /** An itemize block with nothing in it — the one spliced in when there was none — gives no author. */
  lemma EmptyBlockGivesNothing(P: Patterns, san: string -> string, split: string -> seq<string>, content: string)
    requires var c := JoinThanks(content); Search(CompSocItemizeContent, c).Some? ==> ItemText(Search(CompSocItemizeContent, c).value) == ""
    ensures ExtractCompSocThanks(P, san, split, content) == []
  {
    var c := JoinThanks(content);
    assert ExtractCompSocThanks(P, san, split, content) == ExtractJoined(P, san, split, c);
    match Search(CompSocItemizeContent, c)
    case None =>
    case Some(m) =>
      NoItems(m);
  }

  lemma NoItems(m: Match)
    requires ItemText(m) == ""
    ensures CompSocItems(m) == []
  {
    var sep := "\\IEEEcompsocthanksitem";
    assert Find("", sep) == -1;
    assert Split("", sep) == [""];
  }
}
