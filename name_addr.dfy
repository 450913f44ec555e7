/**
  * The `\name`/`\addr` schemes: names after `\name`, affiliations after
  * `\addr`, grouped by position or tied by `\textsuperscript{…}` references.
  */
module NameAddrScheme {
  import opened PyStr
  import opened Regex
  import opened RegExp
  import opened Patterns
  import opened Authors
  import opened CmdUtil
  import opened Scheme

  // ----------------------------------------------------------------------
  // Validators
  // ----------------------------------------------------------------------

  /** `NameAddr.validate`. */
  predicate NameAddrValid(content: string) {
    !Has(content, "\\address") && Has(content, "\\name") && Has(content, "\\addr")
  }

  /** `NameAddrTextSuperScript.validate`. */
  predicate NameAddrTextSuperScriptValid(content: string) {
    !Has(content, "\\address") && Has(content, "\\textsuperscript") && Has(content, "\\name") && Has(content, "\\addr")
  }

  /** The superscript variant only adds a requirement: whatever it accepts, `NameAddr` accepts too. */
  lemma TextSuperScriptImpliesNameAddr(content: string)
    ensures NameAddrTextSuperScriptValid(content) ==> NameAddrValid(content)
    ensures NameAddrValid(content) && Has(content, "\\textsuperscript") ==> NameAddrTextSuperScriptValid(content)
  {
  }

  /** A part that starts with `\name`, compared lower-case. */
  predicate IsNamePart(part: string) {
    StartsWith(Lower(part), "\\name")
  }

  /** A part that starts with `\addr` and not with `\name`. */
  predicate IsAddrPart(part: string) {
    !IsNamePart(part) && StartsWith(Lower(part), "\\addr")
  }

  /** `split_on_commands([r"\name", r"\addr"], cmd_content)`. */
  function NameAddrParts(content: string): seq<string> {
    OnCommands(["\\name", "\\addr"], content)
  }

  // ----------------------------------------------------------------------
  // `NameAddr.extract`
  // ----------------------------------------------------------------------

  /** The loop state: pending names, their affiliations, and the authors flushed so far. */
  datatype Grouping = Grouping(names: seq<string>, affiliations: seq<string>, authorAff: seq<Author>)

  /**
    * One part: a `\name` part first flushes the pending names when at least
    * one `\addr` has followed them, then adds its own sanitized name; an
    * `\addr` part adds an affiliation; any other part is ignored.
    */
  function NameAddrStep(san: string -> string, g: Grouping, part: string): Grouping {
    if IsNamePart(part) then
      var f := if |g.affiliations| > 0 then Grouping([], [], g.authorAff + Group(g.names, g.affiliations)) else g;
      Grouping(f.names + [san(Slice(part, 5, |part|))], f.affiliations, f.authorAff)
    else if IsAddrPart(part) then
      Grouping(g.names, g.affiliations + [san(Slice(part, 5, |part|))], g.authorAff)
    else g
  }

  function NameAddrStepOf(san: string -> string): (Grouping, string) -> Grouping {
    (g: Grouping, part: string) => NameAddrStep(san, g, part)
  }

  /** The state after the parts, and what the trailing loop then emits. */
  function NameAddrGrouped(san: string -> string, parts: seq<string>): Grouping {
    Fold(NameAddrStepOf(san), Grouping([], [], []), parts)
  }

  function NameAddrSpec(san: string -> string, content: string): seq<Author> {
    var g := NameAddrGrouped(san, NameAddrParts(content));
    g.authorAff + Group(g.names, g.affiliations)
  }

  /** `NameAddr.extract`. */
  method NameAddrExtract(san: string -> string, content: string) returns (authorAff: seq<Author>)
    ensures authorAff == NameAddrSpec(san, content)
  {
    var parts := SplitOnCommands(["\\name", "\\addr"], content);
    var authors: seq<string> := [];
    var affiliations: seq<string> := [];
    authorAff := [];
    var i := 0;
    while i < |parts|
      invariant 0 <= i <= |parts|
      invariant Grouping(authors, affiliations, authorAff) == NameAddrGrouped(san, parts[..i])
    {
      FoldStep(NameAddrStepOf(san), Grouping([], [], []), parts, i);
      authors, affiliations, authorAff := NameAddrTurn(san, parts[i], authors, affiliations, authorAff);
      i := i + 1;
    }
    assert parts[..|parts|] == parts;
    authorAff := AppendGroup(authorAff, authors, affiliations);
  }

  /** The body of `NameAddr.extract`'s loop for one part. */
  method NameAddrTurn(san: string -> string, part: string, authors: seq<string>, affiliations: seq<string>, authorAff: seq<Author>)
    returns (authors': seq<string>, affiliations': seq<string>, authorAff': seq<Author>)
    ensures Grouping(authors', affiliations', authorAff') == NameAddrStep(san, Grouping(authors, affiliations, authorAff), part)
  {
    authors', affiliations', authorAff' := authors, affiliations, authorAff;
    if StartsWith(Lower(part), "\\name") {
      if |affiliations'| > 0 {
        authorAff' := AppendGroup(authorAff', authors', affiliations');
        authors' := [];
        affiliations' := [];
      }
      authors' := authors' + [san(Slice(part, 5, |part|))];
    } else if StartsWith(Lower(part), "\\addr") {
      affiliations' := affiliations' + [san(Slice(part, 5, |part|))];
    }
  }

  /** The `\name` parts among `parts`. */
  function NameParts(parts: seq<string>): seq<string>
    decreases |parts|
  {
    if parts == [] then []
    else NameParts(parts[..|parts| - 1]) + (if IsNamePart(parts[|parts| - 1]) then [parts[|parts| - 1]] else [])
  }

  /** One author per `\name` part: no name is lost and none is made up. */
  lemma NameAddrOnePerName(san: string -> string, content: string)
    ensures |NameAddrSpec(san, content)| == |NameParts(NameAddrParts(content))|
  {
    NameAddrCount(san, NameAddrParts(content));
  }

  lemma {:induction false} NameAddrCount(san: string -> string, parts: seq<string>)
    ensures var g := NameAddrGrouped(san, parts); |g.authorAff| + |g.names| == |NameParts(parts)|
    decreases |parts|
  {
    if parts != [] {
      var n := |parts| - 1;
      NameAddrCount(san, parts[..n]);
      FoldStep(NameAddrStepOf(san), Grouping([], [], []), parts, n);
      assert parts[..n + 1] == parts;
    }
  }

  /** Every author flushed before the end carries at least one affiliation. */
  predicate FlushedWithAffiliations(g: Grouping) {
    forall k :: 0 <= k < |g.authorAff| ==> |g.authorAff[k].affiliations| > 0
  }

  lemma StepFlushesWithAffiliations(san: string -> string, g: Grouping, part: string)
    requires FlushedWithAffiliations(g)
    ensures FlushedWithAffiliations(NameAddrStep(san, g, part))
  {
    if IsNamePart(part) && |g.affiliations| > 0 {
      GroupEntries(g.names, g.affiliations);
      var r := g.authorAff + Group(g.names, g.affiliations);
      assert forall k :: |g.authorAff| <= k < |r| ==> r[k] == Author(g.names[k - |g.authorAff|], g.affiliations);
    }
  }

  /**
    * A group is flushed only when an `\addr` has followed it, so only the
    * trailing names can end up with no affiliation.
    */
  lemma NameAddrFlushedGroups(san: string -> string, content: string)
    ensures FlushedWithAffiliations(NameAddrGrouped(san, NameAddrParts(content)))
  {
    var step := NameAddrStepOf(san);
    forall g, part | FlushedWithAffiliations(g) ensures FlushedWithAffiliations(step(g, part)) {
      StepFlushesWithAffiliations(san, g, part);
    }
    FoldKeeps(step, Grouping([], [], []), NameAddrParts(content), FlushedWithAffiliations);
  }

  /** A part that is neither a `\name` nor an `\addr` part — the text before the first `\name` — changes nothing. */
  lemma NameAddrIgnoresOtherParts(san: string -> string, a: seq<string>, part: string, b: seq<string>)
    requires !IsNamePart(part) && !IsAddrPart(part)
    ensures NameAddrGrouped(san, a + [part] + b) == NameAddrGrouped(san, a + b)
  {
    var step := NameAddrStepOf(san);
    var init := Grouping([], [], []);
    FoldAppend(step, init, a + [part], b);
    FoldAppend(step, init, a, [part]);
    FoldAppend(step, init, a, b);
    assert Fold(step, Fold(step, init, a), [part]) == step(Fold(step, init, a), part) by {
      assert [part][..0] == [];
    }
  }

  // ----------------------------------------------------------------------
  // `NameAddrTextSuperScript.extract`
  // ----------------------------------------------------------------------

  /** `m.group("cnt")[1:-1].strip()`: the reference inside the braces. */
  function TsRef(m: Match): string {
    Strip(Slice(m.g1, 1, -1))
  }

  /** `part[5:].replace(m.group(0), "")`: the part without its command and its reference. */
  function TsRest(part: string, m: Match): string {
    Delete(Slice(part, 5, |part|), Text(part, m))
  }

  function TsAuthor(san: string -> string, ids: seq<string>, name: string): RefAuthor {
    RefAuthor(san(name), ids)
  }

  function TsAuthorOf(san: string -> string, ids: seq<string>): string -> RefAuthor {
    (name: string) => TsAuthor(san, ids, name)
  }

  /** The authors a part contributes: a `\name` part with a reference gives one per name, sharing its ids. */
  function TsAuthors(san: string -> string, split: string -> seq<string>, part: string): seq<RefAuthor> {
    if IsNamePart(part) then
      match Search(TextsuperscriptContent, part)
      case None => []
      case Some(m) => Map(split(TsRest(part, m)), TsAuthorOf(san, SplitRefStrings(TsRef(m))))
    else []
  }

  /** The affiliation an `\addr` part with a reference contributes. */
  function TsAffiliations(san: string -> string, part: string): seq<RefAffiliation> {
    if IsAddrPart(part) then
      match Search(TextsuperscriptContent, part)
      case None => []
      case Some(m) => [RefAffiliation(san(TsRest(part, m)), TsRef(m))]
    else []
  }

  function TsAuthorsOf(san: string -> string, split: string -> seq<string>): string -> seq<RefAuthor> {
    (part: string) => TsAuthors(san, split, part)
  }

  function TsAffiliationsOf(san: string -> string): string -> seq<RefAffiliation> {
    (part: string) => TsAffiliations(san, part)
  }

  function NameAddrTextSuperScriptSpec(P: Patterns, san: string -> string, split: string -> seq<string>, content: string): seq<Author> {
    var parts := NameAddrParts(P.joinMulti(TextsuperscriptMulti, content));
    Joined(san, FlatMap(parts, TsAuthorsOf(san, split)), FlatMap(parts, TsAffiliationsOf(san)))
  }

  /** `NameAddrTextSuperScript.extract`. */
  method NameAddrTextSuperScriptExtract(P: Patterns, san: string -> string, split: string -> seq<string>, content: string)
    returns (r: seq<Author>)
    ensures r == NameAddrTextSuperScriptSpec(P, san, split, content)
  {
    var c := P.joinMulti(TextsuperscriptMulti, content);
    var parts := SplitOnCommands(["\\name", "\\addr"], c);
    var authors: seq<RefAuthor> := [];
    var affiliations: seq<RefAffiliation> := [];
    var i := 0;
    while i < |parts|
      invariant 0 <= i <= |parts|
      invariant authors == FlatMap(parts[..i], TsAuthorsOf(san, split))
      invariant affiliations == FlatMap(parts[..i], TsAffiliationsOf(san))
    {
      FlatMapStep(parts, TsAuthorsOf(san, split), i);
      FlatMapStep(parts, TsAffiliationsOf(san), i);
      var found, affs := TsTurn(san, split, parts[i]);
      authors := authors + found;
      affiliations := affiliations + affs;
      i := i + 1;
    }
    assert parts[..|parts|] == parts;
    r := JoinAuthorAndAffilById(san, authors, affiliations);
  }

  /** The body of `NameAddrTextSuperScript.extract`'s loop: what one part adds to each list. */
  method TsTurn(san: string -> string, split: string -> seq<string>, part: string)
    returns (found: seq<RefAuthor>, affs: seq<RefAffiliation>)
    ensures found == TsAuthors(san, split, part) && affs == TsAffiliations(san, part)
  {
    found, affs := [], [];
    if StartsWith(Lower(part), "\\name") {
      found := NameTsAuthors(san, split, part);
    } else if StartsWith(Lower(part), "\\addr") {
      var m := Search(TextsuperscriptContent, part);
      if m.Some? {
        affs := [RefAffiliation(san(TsRest(part, m.value)), TsRef(m.value))];
      }
    }
  }

  /** The authors of one `\name` part. */
  method NameTsAuthors(san: string -> string, split: string -> seq<string>, part: string) returns (authors: seq<RefAuthor>)
    requires IsNamePart(part)
    ensures authors == TsAuthors(san, split, part)
  {
    var m := Search(TextsuperscriptContent, part);
    if m.None? {
      return [];
    }
    authors := AppendTsAuthors(san, SplitRefStrings(TsRef(m.value)), split(TsRest(part, m.value)));
  }

  /** The loop `for name in names: authors.append({"name": sanitize(name), "ref_id": ref_ids})`. */
  method AppendTsAuthors(san: string -> string, refIds: seq<string>, names: seq<string>) returns (authors: seq<RefAuthor>)
    ensures authors == Map(names, TsAuthorOf(san, refIds))
  {
    authors := [];
    var i := 0;
    while i < |names|
      invariant 0 <= i <= |names|
      invariant authors == Map(names[..i], TsAuthorOf(san, refIds))
    {
      MapStep(names, TsAuthorOf(san, refIds), i);
      authors := authors + [RefAuthor(san(names[i]), refIds)];
      i := i + 1;
    }
    assert names[..|names|] == names;
  }

  /**
    * Authors come only from `\name` parts and affiliations only from `\addr`
    * parts, and only from those that carry a `\textsuperscript{…}`.
    */
  lemma TsSources(san: string -> string, split: string -> seq<string>, parts: seq<string>, a: RefAuthor, f: RefAffiliation)
    ensures a in FlatMap(parts, TsAuthorsOf(san, split)) ==>
      exists k :: 0 <= k < |parts| && IsNamePart(parts[k]) && Search(TextsuperscriptContent, parts[k]).Some?
    ensures f in FlatMap(parts, TsAffiliationsOf(san)) ==>
      exists k :: 0 <= k < |parts| && IsAddrPart(parts[k]) && Search(TextsuperscriptContent, parts[k]).Some?
  {
    FlatMapIn(parts, TsAuthorsOf(san, split), a);
    FlatMapIn(parts, TsAffiliationsOf(san), f);
  }

  /** Every author of a `\name` part carries the ids of that part's reference. */
  lemma TsAuthorsShareIds(san: string -> string, split: string -> seq<string>, part: string)
    requires IsNamePart(part) && Search(TextsuperscriptContent, part).Some?
    ensures var m := Search(TextsuperscriptContent, part).value;
      var r := TsAuthors(san, split, part);
      |r| == |split(TsRest(part, m))| &&
      forall k :: 0 <= k < |r| ==> r[k] == RefAuthor(san(split(TsRest(part, m))[k]), SplitRefStrings(TsRef(m)))
  {
    var m := Search(TextsuperscriptContent, part).value;
    MapAt(split(TsRest(part, m)), TsAuthorOf(san, SplitRefStrings(TsRef(m))));
  }
}
