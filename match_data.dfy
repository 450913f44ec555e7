/**
  * Matching the extracted data: every distinct extracted affiliation is
  * resolved to a ROR organisation by reranking its top partial-ratio
  * candidates with the full ratio, and the authors of the best extraction
  * of a paper are paired with the declared authors, each carrying the
  * resolved affiliations.
  */
module MatchData {
  import opened PyStr
  import opened Authors
  import opened RorData
  import Scheme
  import ExtractAuthorAff

  /** How many partial-ratio candidates are reranked. */
  const TopMatchesLimit: nat := 10

  // ----------------------------------------------------------------------
  // _process_ror_orgs_to_dict
  // ----------------------------------------------------------------------

  /** The dictionary a loop builds when it sets `d[org.ror_id] = org` for each organisation in turn. */
  function OrgsToDict(orgs: seq<ResearchOrganization>): map<string, ResearchOrganization>
    decreases |orgs|
  {
    if orgs == [] then map[]
    else OrgsToDict(orgs[..|orgs| - 1])[orgs[|orgs| - 1].rorId := orgs[|orgs| - 1]]
  }

  /** `_process_ror_orgs_to_dict`. */
  method ProcessRorOrgsToDict(rorDataset: RorDataset) returns (rorDict: map<string, ResearchOrganization>)
    ensures rorDict == OrgsToDict(rorDataset.data)
  {
    var orgs := rorDataset.data;
    rorDict := map[];
    for i := 0 to |orgs|
      invariant rorDict == OrgsToDict(orgs[..i])
    {
      assert orgs[..i + 1][..i] == orgs[..i];
      rorDict := rorDict[orgs[i].rorId := orgs[i]];
    }
    assert orgs[..|orgs|] == orgs;
  }

  /** `orgs[k]` is the last organisation with the id `id`. */
  predicate LastWithId(orgs: seq<ResearchOrganization>, k: int, id: string) {
    0 <= k < |orgs| && orgs[k].rorId == id && forall j :: k < j < |orgs| ==> orgs[j].rorId != id
  }

  /**
    * The keys are exactly the ids of the organisations, and an id shared by
    * several organisations maps to the last of them.
    */
  lemma {:induction false} OrgsToDictLast(orgs: seq<ResearchOrganization>, id: string)
    ensures id in OrgsToDict(orgs) <==> exists k :: 0 <= k < |orgs| && orgs[k].rorId == id
    ensures id in OrgsToDict(orgs) ==> exists k :: LastWithId(orgs, k, id) && OrgsToDict(orgs)[id] == orgs[k]
    decreases |orgs|
  {
    if orgs != [] {
      var n := |orgs| - 1;
      var prefix := orgs[..n];
      OrgsToDictLast(prefix, id);
      if orgs[n].rorId == id {
        assert LastWithId(orgs, n, id);
      } else {
        OtherIdKeys(orgs, prefix, id);
        if id in OrgsToDict(orgs) {
          assert id in OrgsToDict(prefix) && OrgsToDict(orgs)[id] == OrgsToDict(prefix)[id];
          OtherIdLast(orgs, prefix, id);
        }
      }
    }
  }

  /** A last organisation with another id adds no occurrence of `id`. */
  lemma OtherIdKeys(orgs: seq<ResearchOrganization>, prefix: seq<ResearchOrganization>, id: string)
    requires orgs != [] && prefix == orgs[..|orgs| - 1] && orgs[|orgs| - 1].rorId != id
    ensures (exists k :: 0 <= k < |orgs| && orgs[k].rorId == id)
      <==> (exists k :: 0 <= k < |prefix| && prefix[k].rorId == id)
  {
    if exists k :: 0 <= k < |orgs| && orgs[k].rorId == id {
      var k :| 0 <= k < |orgs| && orgs[k].rorId == id;
      assert prefix[k] == orgs[k];
    }
    if exists k :: 0 <= k < |prefix| && prefix[k].rorId == id {
      var k :| 0 <= k < |prefix| && prefix[k].rorId == id;
      assert prefix[k] == orgs[k];
    }
  }

  /** A last organisation with another id leaves the last one with `id` as it was. */
  lemma OtherIdLast(orgs: seq<ResearchOrganization>, prefix: seq<ResearchOrganization>, id: string)
    requires orgs != [] && prefix == orgs[..|orgs| - 1] && orgs[|orgs| - 1].rorId != id
    requires id in OrgsToDict(prefix) && exists k :: LastWithId(prefix, k, id) && OrgsToDict(prefix)[id] == prefix[k]
    ensures exists k :: LastWithId(orgs, k, id) && OrgsToDict(prefix)[id] == orgs[k]
  {
    var k :| LastWithId(prefix, k, id) && OrgsToDict(prefix)[id] == prefix[k];
    assert forall j :: k < j < |prefix| ==> prefix[j] == orgs[j];
    assert LastWithId(orgs, k, id);
  }

  // ----------------------------------------------------------------------
  // _process_ror_orgs
  // ----------------------------------------------------------------------

  /** The `(id, name)` pair one name gives: none when pre-processing leaves nothing of it. */
  function NameEntryFn(preProcess: string -> string, rorId: string): string -> seq<(string, string)> {
    (name: string) => if |preProcess(name)| > 0 then [(rorId, preProcess(name))] else []
  }

  /** The pairs one organisation gives, one per name in order. */
  function OrgEntriesFn(preProcess: string -> string): ResearchOrganization -> seq<(string, string)> {
    (org: ResearchOrganization) => Scheme.FlatMap(org.names, NameEntryFn(preProcess, org.rorId))
  }

  /** `_process_ror_orgs`: `preProcess` is `_pre_process_string`. */
  function RorOrgs(preProcess: string -> string, data: seq<ResearchOrganization>): seq<(string, string)> {
    Scheme.FlatMap(data, OrgEntriesFn(preProcess))
  }

  /** `_process_ror_orgs`. */
  method ProcessRorOrgs(preProcess: string -> string, rorDataset: RorDataset) returns (rorOrgs: seq<(string, string)>)
    ensures rorOrgs == RorOrgs(preProcess, rorDataset.data)
  {
    var data := rorDataset.data;
    rorOrgs := [];
    for i := 0 to |data|
      invariant rorOrgs == Scheme.FlatMap(data[..i], OrgEntriesFn(preProcess))
    {
      Scheme.FlatMapStep(data, OrgEntriesFn(preProcess), i);
      var rorId := data[i].rorId;
      var names := data[i].names;
      var orgEntries := [];
      for j := 0 to |names|
        invariant orgEntries == Scheme.FlatMap(names[..j], NameEntryFn(preProcess, rorId))
      {
        Scheme.FlatMapStep(names, NameEntryFn(preProcess, rorId), j);
        var processedName := preProcess(names[j]);
        if |processedName| > 0 {
          orgEntries := orgEntries + [(rorId, processedName)];
        }
      }
      assert names[..|names|] == names;
      rorOrgs := rorOrgs + orgEntries;
    }
    assert data[..|data|] == data;
  }

  /**
    * A pair is listed iff its name is not empty after pre-processing and it
    * is the id of some organisation with the pre-processed form of one of
    * that organisation's names.
    */
  lemma RorOrgsEntries(preProcess: string -> string, data: seq<ResearchOrganization>, e: (string, string))
    ensures e in RorOrgs(preProcess, data) <==>
      |e.1| > 0 &&
      exists k :: 0 <= k < |data| && data[k].rorId == e.0 &&
        exists j :: 0 <= j < |data[k].names| && preProcess(data[k].names[j]) == e.1
  {
    Scheme.FlatMapIn(data, OrgEntriesFn(preProcess), e);
    forall k | 0 <= k < |data|
      ensures e in OrgEntriesFn(preProcess)(data[k]) <==>
        |e.1| > 0 && data[k].rorId == e.0 && exists j :: 0 <= j < |data[k].names| && preProcess(data[k].names[j]) == e.1
    {
      Scheme.FlatMapIn(data[k].names, NameEntryFn(preProcess, data[k].rorId), e);
    }
  }

  // ----------------------------------------------------------------------
  // _get_best_match
  // ----------------------------------------------------------------------

  /** An entry `process.extract` returns: the choice, its score and its index among the choices. */
  type Candidate = (string, real, int)

  /** The running best of `_get_best_match` after the candidates in `matches`. */
  function BestMatchOf(ratio: (string, string) -> real, matches: seq<Candidate>, affiliation: string): Candidate
    decreases |matches|
  {
    if matches == [] then ("", -1.0, -1)
    else
      var best := BestMatchOf(ratio, matches[..|matches| - 1], affiliation);
      var m := matches[|matches| - 1];
      var score := ratio(m.0, affiliation);
      if score > best.1 then (m.0, score, m.2) else best
  }

  /** `_get_best_match`: `ratio` is `fuzz.ratio`. */
  method GetBestMatch(ratio: (string, string) -> real, matches: seq<Candidate>, affiliation: string) returns (best: Candidate)
    ensures best == BestMatchOf(ratio, matches, affiliation)
  {
    best := ("", -1.0, -1);
    for i := 0 to |matches|
      invariant best == BestMatchOf(ratio, matches[..i], affiliation)
    {
      assert matches[..i + 1][..i] == matches[..i];
      var score := ratio(matches[i].0, affiliation);
      if score > best.1 {
        best := (matches[i].0, score, matches[i].2);
      }
    }
    assert matches[..|matches|] == matches;
  }

  /** Scores in `[0, 100]`, as `fuzz.ratio`'s are. */
  ghost predicate RatioRange(ratio: (string, string) -> real) {
    forall a, b :: 0.0 <= ratio(a, b) <= 100.0
  }

  /** Candidate `k` has the highest ratio, and every candidate before it a lower one. */
  predicate FirstBest(ratio: (string, string) -> real, matches: seq<Candidate>, affiliation: string, k: int) {
    0 <= k < |matches| &&
    (forall j :: 0 <= j < |matches| ==> ratio(matches[j].0, affiliation) <= ratio(matches[k].0, affiliation)) &&
    (forall j :: 0 <= j < k ==> ratio(matches[j].0, affiliation) < ratio(matches[k].0, affiliation))
  }

  /** Every candidate's ratio beats the initial `-1.0`. */
  predicate AboveInitial(ratio: (string, string) -> real, matches: seq<Candidate>, affiliation: string) {
    forall j :: 0 <= j < |matches| ==> ratio(matches[j].0, affiliation) > -1.0
  }

  /**
    * No candidates give `("", -1.0, -1)`; otherwise, with ratios above the
    * initial `-1.0`, the result is the earliest candidate of highest ratio,
    * with that ratio and its own index.
    */
  lemma BestMatchIsFirstMax(ratio: (string, string) -> real, matches: seq<Candidate>, affiliation: string)
    ensures matches == [] ==> BestMatchOf(ratio, matches, affiliation) == ("", -1.0, -1)
    ensures AboveInitial(ratio, matches, affiliation) && matches != [] ==>
      exists k :: FirstBest(ratio, matches, affiliation, k) &&
        BestMatchOf(ratio, matches, affiliation) == (matches[k].0, ratio(matches[k].0, affiliation), matches[k].2)
  {
    if AboveInitial(ratio, matches, affiliation) && matches != [] {
      var k := BestMatchWitness(ratio, matches, affiliation);
    }
  }

  lemma {:induction false} BestMatchWitness(ratio: (string, string) -> real, matches: seq<Candidate>, affiliation: string)
    returns (k: int)
    requires AboveInitial(ratio, matches, affiliation) && matches != []
    ensures FirstBest(ratio, matches, affiliation, k)
    ensures BestMatchOf(ratio, matches, affiliation) == (matches[k].0, ratio(matches[k].0, affiliation), matches[k].2)
    decreases |matches|
  {
    var n := |matches| - 1;
    var prefix := matches[..n];
    if n == 0 {
      k := 0;
    } else {
      assert forall j :: 0 <= j < n ==> prefix[j] == matches[j];
      var kp := BestMatchWitness(ratio, prefix, affiliation);
      FirstBestExtend(ratio, matches, affiliation, kp);
      k := if ratio(matches[n].0, affiliation) > ratio(prefix[kp].0, affiliation) then n else kp;
    }
  }

  lemma FirstBestExtend(ratio: (string, string) -> real, matches: seq<Candidate>, affiliation: string, k: int)
    requires matches != [] && FirstBest(ratio, matches[..|matches| - 1], affiliation, k)
    ensures var n := |matches| - 1;
      if ratio(matches[n].0, affiliation) > ratio(matches[k].0, affiliation) then FirstBest(ratio, matches, affiliation, n)
      else FirstBest(ratio, matches, affiliation, k)
  {
    var n := |matches| - 1;
    assert forall j :: 0 <= j < n ==> matches[..n][j] == matches[j];
  }

  // ----------------------------------------------------------------------
  // _get_matched_affiliation
  // ----------------------------------------------------------------------

  /** `xs[i]` with Python's negative indices; `None` is the `IndexError`. */
  function PyAt<T>(xs: seq<T>, i: int): (r: Option<T>)
    ensures r.Some? <==> -|xs| <= i < |xs|
  {
    if 0 <= i < |xs| then Some(xs[i])
    else if -|xs| <= i < 0 then Some(xs[|xs| + i])
    else None
  }

  /** The resolved organisation of an affiliation and the ratio it was chosen with. */
  datatype AffMatch = AffMatch(matchedRorId: string, score: real)

  function OrgName(org: (string, string)): string { org.1 }

  /**
    * `process.extract(query, choices, scorer=fuzz.partial_ratio, limit)`:
    * at most `limit` entries, each a choice with its own index.
    */
  predicate ExtractShape(matches: seq<Candidate>, choices: seq<string>, limit: nat) {
    |matches| <= limit && forall j :: 0 <= j < |matches| ==> 0 <= matches[j].2 < |choices| && choices[matches[j].2] == matches[j].0
  }

  /** The candidates `_get_matched_affiliation` reranks. */
  function TopMatches(preProcess: string -> string, extract: (string, seq<string>, nat) -> seq<Candidate>,
                      affiliation: string, researchOrgs: seq<(string, string)>): seq<Candidate> {
    extract(preProcess(affiliation), Scheme.Map(researchOrgs, OrgName), TopMatchesLimit)
  }

  /**
    * `_get_matched_affiliation`: `researchOrgs` are the `(id, name)` pairs
    * of `_process_ror_orgs`; `extract` is `process.extract` with the
    * partial ratio as scorer. `None` is the `IndexError` of an index past
    * the organisations.
    */
  function MatchedAffiliation(preProcess: string -> string, ratio: (string, string) -> real,
                              extract: (string, seq<string>, nat) -> seq<Candidate>,
                              researchOrgs: seq<(string, string)>, affiliation: string): Option<(string, AffMatch)>
  {
    var best := BestMatchOf(ratio, TopMatches(preProcess, extract, affiliation, researchOrgs), preProcess(affiliation));
    match PyAt(researchOrgs, best.2)
    case None => None
    case Some(org) => Some((affiliation, AffMatch(org.0, best.1)))
  }

  /**
    * The result is keyed by the affiliation as extracted, not its
    * pre-processed form. When `process.extract` returns some of the at most
    * ten candidates, the organisation is that of the earliest candidate with
    * the highest full ratio, scored with that ratio; when it returns none,
    * the index `-1` picks the last pair and raises only without pairs.
    */
  lemma MatchedAffiliationChoice(preProcess: string -> string, ratio: (string, string) -> real,
                                 extract: (string, seq<string>, nat) -> seq<Candidate>,
                                 researchOrgs: seq<(string, string)>, affiliation: string)
    ensures var r := MatchedAffiliation(preProcess, ratio, extract, researchOrgs, affiliation);
      r.Some? ==> r.value.0 == affiliation
    ensures var r := MatchedAffiliation(preProcess, ratio, extract, researchOrgs, affiliation);
      var matches := TopMatches(preProcess, extract, affiliation, researchOrgs);
      var q := preProcess(affiliation);
      RatioRange(ratio) && matches != [] && ExtractShape(matches, Scheme.Map(researchOrgs, OrgName), TopMatchesLimit) ==>
        r.Some? &&
        exists k :: FirstBest(ratio, matches, q, k) &&
          r.value.1 == AffMatch(researchOrgs[matches[k].2].0, ratio(matches[k].0, q))
    ensures var r := MatchedAffiliation(preProcess, ratio, extract, researchOrgs, affiliation);
      TopMatches(preProcess, extract, affiliation, researchOrgs) == [] ==>
        (r.Some? <==> researchOrgs != []) &&
        (researchOrgs != [] ==> r.value.1 == AffMatch(researchOrgs[|researchOrgs| - 1].0, -1.0))
  {
    var matches := TopMatches(preProcess, extract, affiliation, researchOrgs);
    var q := preProcess(affiliation);
    if RatioRange(ratio) {
      assert AboveInitial(ratio, matches, q);
    }
    BestMatchIsFirstMax(ratio, matches, q);
    Scheme.MapAt(researchOrgs, OrgName);
  }

  // ----------------------------------------------------------------------
  // _match_affiliations
  // ----------------------------------------------------------------------

  /** The dictionary a loop builds when it sets `affs[a] = match` for each result in turn. */
  function AffsMap(results: seq<(string, AffMatch)>): map<string, Option<AffMatch>>
    decreases |results|
  {
    if results == [] then map[]
    else AffsMap(results[..|results| - 1])[results[|results| - 1].0 := Some(results[|results| - 1].1)]
  }

  function MatchedAffiliationFn(preProcess: string -> string, ratio: (string, string) -> real,
                                extract: (string, seq<string>, nat) -> seq<Candidate>,
                                researchOrgs: seq<(string, string)>): string -> Option<(string, AffMatch)> {
    (affiliation: string) => MatchedAffiliation(preProcess, ratio, extract, researchOrgs, affiliation)
  }

  /**
    * `_match_affiliations` on the affiliations in the order the worker pool
    * receives them: every affiliation is resolved, and `None` if one
    * resolution raises.
    */
  function MatchAffs(preProcess: string -> string, ratio: (string, string) -> real,
                     extract: (string, seq<string>, nat) -> seq<Candidate>,
                     affiliations: seq<string>, rorOrgs: seq<(string, string)>): Option<map<string, Option<AffMatch>>>
  {
    match Scheme.Collect(MatchedAffiliationFn(preProcess, ratio, extract, rorOrgs), affiliations)
    case None => None
    case Some(results) => Some(AffsMap(results))
  }

  /** `_match_affiliations`. */
  method MatchAffiliations(preProcess: string -> string, ratio: (string, string) -> real,
                           extract: (string, seq<string>, nat) -> seq<Candidate>,
                           affiliations: seq<string>, rorOrgs: seq<(string, string)>)
    returns (r: Option<map<string, Option<AffMatch>>>)
    ensures r == MatchAffs(preProcess, ratio, extract, affiliations, rorOrgs)
  {
    var f := MatchedAffiliationFn(preProcess, ratio, extract, rorOrgs);
    var matchedAffs := [];
    for i := 0 to |affiliations|
      invariant Scheme.Collect(f, affiliations[..i]) == Some(matchedAffs)
    {
      Scheme.CollectStep(f, affiliations, i);
      var matched := MatchedAffiliation(preProcess, ratio, extract, rorOrgs, affiliations[i]);
      if matched.None? {
        Scheme.CollectNone(f, affiliations);
        return None;
      }
      matchedAffs := matchedAffs + [matched.value];
    }
    assert affiliations[..|affiliations|] == affiliations;
    var affs := map[];
    for i := 0 to |matchedAffs|
      invariant affs == AffsMap(matchedAffs[..i])
    {
      assert matchedAffs[..i + 1][..i] == matchedAffs[..i];
      affs := affs[matchedAffs[i].0 := Some(matchedAffs[i].1)];
    }
    assert matchedAffs[..|matchedAffs|] == matchedAffs;
    r := Some(affs);
  }

  /** Every key comes from some result, with that result's match; every result's key is present. */
  lemma {:induction false} AffsMapFrom(results: seq<(string, AffMatch)>, a: string)
    ensures a in AffsMap(results) <==> exists k :: 0 <= k < |results| && results[k].0 == a
    ensures a in AffsMap(results) ==> exists k :: 0 <= k < |results| && results[k].0 == a && AffsMap(results)[a] == Some(results[k].1)
    decreases |results|
  {
    if results != [] {
      var n := |results| - 1;
      var prefix := results[..n];
      AffsMapFrom(prefix, a);
      if results[n].0 != a {
        if a in AffsMap(results) {
          var k :| 0 <= k < n && prefix[k].0 == a && AffsMap(prefix)[a] == Some(prefix[k].1);
          assert results[k] == prefix[k];
        }
        if exists k :: 0 <= k < |results| && results[k].0 == a {
          var k :| 0 <= k < |results| && results[k].0 == a;
          assert prefix[k] == results[k];
        }
      }
    }
  }

  /**
    * The result raises iff some affiliation's resolution raises; otherwise
    * there is exactly one entry per distinct affiliation, holding that
    * affiliation's resolution.
    */
  lemma MatchAffsEntries(preProcess: string -> string, ratio: (string, string) -> real,
                         extract: (string, seq<string>, nat) -> seq<Candidate>,
                         affiliations: seq<string>, rorOrgs: seq<(string, string)>, a: string)
    ensures MatchAffs(preProcess, ratio, extract, affiliations, rorOrgs).None? <==>
      exists k :: 0 <= k < |affiliations| && MatchedAffiliation(preProcess, ratio, extract, rorOrgs, affiliations[k]).None?
    ensures var r := MatchAffs(preProcess, ratio, extract, affiliations, rorOrgs);
      r.Some? ==>
        (a in r.value <==> a in affiliations) &&
        (a in r.value ==> r.value[a].Some? && MatchedAffiliation(preProcess, ratio, extract, rorOrgs, a) == Some((a, r.value[a].value)))
  {
    var f := MatchedAffiliationFn(preProcess, ratio, extract, rorOrgs);
    Scheme.CollectNone(f, affiliations);
    var c := Scheme.Collect(f, affiliations);
    if c.Some? {
      var results := c.value;
      Scheme.CollectAt(f, affiliations);
      forall k | 0 <= k < |affiliations|
        ensures results[k].0 == affiliations[k]
      {
        MatchedAffiliationChoice(preProcess, ratio, extract, rorOrgs, affiliations[k]);
      }
      AffsMapFrom(results, a);
      if a in AffsMap(results) {
        var k :| 0 <= k < |results| && results[k].0 == a && AffsMap(results)[a] == Some(results[k].1);
        assert affiliations[k] == a;
      }
      if a in affiliations {
        var k :| 0 <= k < |affiliations| && affiliations[k] == a;
        assert results[k].0 == a;
      }
    }
  }

  // ----------------------------------------------------------------------
  // _match_authors
  // ----------------------------------------------------------------------

  datatype NameMatch = NameMatch(arxivName: string, extName: string, score: real)

  datatype AffEntry = AffEntry(rorId: string, extName: string, score: real)

  /** One record of `_match_authors`. */
  datatype MatchedAuthor = MatchedAuthor(nameMatch: NameMatch, affMatches: seq<AffEntry>)

  /**
    * The entry one affiliation gives: none when its match is falsy, modelled
    * as `None` (the dictionaries `_match_affiliations` builds hold none).
    */
  function AffEntryFn(matched: map<string, Option<AffMatch>>): string -> seq<AffEntry> {
    (affiliation: string) =>
      if affiliation in matched && matched[affiliation].Some? then
        [AffEntry(matched[affiliation].value.matchedRorId, affiliation, matched[affiliation].value.score)]
      else []
  }

  /** Every affiliation has an entry in `matched`. */
  predicate AllKeyed(matched: map<string, Option<AffMatch>>, affiliations: seq<string>) {
    forall k :: 0 <= k < |affiliations| ==> affiliations[k] in matched
  }

  /** The inner loop of `_match_authors`; `None` is the `KeyError` of an affiliation without entry. */
  function AffMatchesOf(matched: map<string, Option<AffMatch>>, affiliations: seq<string>): Option<seq<AffEntry>> {
    if AllKeyed(matched, affiliations) then Some(Scheme.FlatMap(affiliations, AffEntryFn(matched))) else None
  }

  function MatchedAuthorFn(matched: map<string, Option<AffMatch>>): ExtractAuthorAff.Matching -> Option<MatchedAuthor> {
    (m: ExtractAuthorAff.Matching) =>
      match AffMatchesOf(matched, m.ext.affiliations)
      case None => None
      case Some(affMatches) => Some(MatchedAuthor(NameMatch(m.arxiv.name, m.ext.name, m.score), affMatches))
  }

  /**
    * `_match_authors`: `sim` is `fuzz.ratio`. `None` is what raises: no
    * extracted author to pair a declared one with, or an affiliation of a
    * paired author that has no entry in `matched`.
    */
  function MatchedAuthors(sim: (string, string) -> real, arxivAuthors: seq<Author>, extAuthors: seq<Author>,
                          matched: map<string, Option<AffMatch>>): Option<seq<MatchedAuthor>>
  {
    if |extAuthors| == 0 && arxivAuthors != [] then None
    else Scheme.Collect(MatchedAuthorFn(matched), ExtractAuthorAff.Matchings(sim, arxivAuthors, extAuthors))
  }

  /** The inner loop of `_match_authors`. */
  method AffiliationMatches(matched: map<string, Option<AffMatch>>, affiliations: seq<string>) returns (r: Option<seq<AffEntry>>)
    ensures r == AffMatchesOf(matched, affiliations)
  {
    var affiliationMatches := [];
    for j := 0 to |affiliations|
      invariant AllKeyed(matched, affiliations[..j])
      invariant affiliationMatches == Scheme.FlatMap(affiliations[..j], AffEntryFn(matched))
    {
      Scheme.FlatMapStep(affiliations, AffEntryFn(matched), j);
      if affiliations[j] !in matched {
        return None;
      }
      var matchedAffiliation := matched[affiliations[j]];
      if matchedAffiliation.Some? {
        affiliationMatches := affiliationMatches +
          [AffEntry(matchedAffiliation.value.matchedRorId, affiliations[j], matchedAffiliation.value.score)];
      }
    }
    assert affiliations[..|affiliations|] == affiliations;
    r := Some(affiliationMatches);
  }

  /** `_match_authors`. */
  method MatchAuthors(sim: (string, string) -> real, arxivAuthors: seq<Author>, extAuthors: seq<Author>,
                      matched: map<string, Option<AffMatch>>) returns (r: Option<seq<MatchedAuthor>>)
    ensures r == MatchedAuthors(sim, arxivAuthors, extAuthors, matched)
  {
    if |extAuthors| == 0 && arxivAuthors != [] {
      return None;
    }
    var f := MatchedAuthorFn(matched);
    var authorMatchings := ExtractAuthorAff.GetAuthorMatchingsByName(sim, arxivAuthors, extAuthors);
    var matchedAuthors := [];
    for i := 0 to |authorMatchings|
      invariant Scheme.Collect(f, authorMatchings[..i]) == Some(matchedAuthors)
    {
      Scheme.CollectStep(f, authorMatchings, i);
      var m := authorMatchings[i];
      var affiliationMatches := AffiliationMatches(matched, m.ext.affiliations);
      if affiliationMatches.None? {
        Scheme.CollectNone(f, authorMatchings);
        return None;
      }
      matchedAuthors := matchedAuthors + [MatchedAuthor(NameMatch(m.arxiv.name, m.ext.name, m.score), affiliationMatches.value)];
    }
    assert authorMatchings[..|authorMatchings|] == authorMatchings;
    r := Some(matchedAuthors);
  }

  /**
    * The records raise exactly when there is no extracted author to pair a
    * declared author with, or a paired extracted author has an affiliation
    * without entry.
    */
  lemma MatchedAuthorsRaise(sim: (string, string) -> real, arxivAuthors: seq<Author>, extAuthors: seq<Author>,
                            matched: map<string, Option<AffMatch>>)
    ensures MatchedAuthors(sim, arxivAuthors, extAuthors, matched).None? <==>
      (|extAuthors| == 0 && arxivAuthors != []) ||
      exists k :: 0 <= k < |arxivAuthors| &&
        !AllKeyed(matched, ExtractAuthorAff.Matchings(sim, arxivAuthors, extAuthors)[k].ext.affiliations)
  {
    if |extAuthors| > 0 || arxivAuthors == [] {
      var ms := ExtractAuthorAff.Matchings(sim, arxivAuthors, extAuthors);
      Scheme.CollectNone(MatchedAuthorFn(matched), ms);
    }
  }

  /** An entry is listed iff it is the non-falsy entry of one of the affiliations. */
  predicate EntryOfAffiliation(matched: map<string, Option<AffMatch>>, affiliations: seq<string>, e: AffEntry) {
    e.extName in affiliations && e.extName in matched && matched[e.extName].Some? &&
    e == AffEntry(matched[e.extName].value.matchedRorId, e.extName, matched[e.extName].value.score)
  }

  /**
    * Record `k` pairs declared author `k` with its matched extracted author
    * and the name score, and lists, in order, the entries of that author's
    * affiliations whose match is not falsy.
    */
  lemma MatchedAuthorsRecords(sim: (string, string) -> real, arxivAuthors: seq<Author>, extAuthors: seq<Author>,
                              matched: map<string, Option<AffMatch>>, e: AffEntry)
    requires MatchedAuthors(sim, arxivAuthors, extAuthors, matched).Some?
    ensures var r := MatchedAuthors(sim, arxivAuthors, extAuthors, matched).value;
      var ms := ExtractAuthorAff.Matchings(sim, arxivAuthors, extAuthors);
      |r| == |arxivAuthors| &&
      forall k :: 0 <= k < |r| ==>
        ms[k].ext in extAuthors &&
        r[k].nameMatch == NameMatch(arxivAuthors[k].name, ms[k].ext.name, sim(arxivAuthors[k].name, ms[k].ext.name)) &&
        r[k].affMatches == Scheme.FlatMap(ms[k].ext.affiliations, AffEntryFn(matched)) &&
        (e in r[k].affMatches <==> EntryOfAffiliation(matched, ms[k].ext.affiliations, e))
  {
    var ms := ExtractAuthorAff.Matchings(sim, arxivAuthors, extAuthors);
    var f := MatchedAuthorFn(matched);
    Scheme.CollectAt(f, ms);
    ExtractAuthorAff.MatchingsPairs(sim, arxivAuthors, extAuthors);
    forall k | 0 <= k < |ms|
      ensures e in Scheme.FlatMap(ms[k].ext.affiliations, AffEntryFn(matched)) <==>
        EntryOfAffiliation(matched, ms[k].ext.affiliations, e)
    {
      AffEntriesOf(matched, ms[k].ext.affiliations, e);
    }
  }

  lemma AffEntriesOf(matched: map<string, Option<AffMatch>>, affiliations: seq<string>, e: AffEntry)
    ensures e in Scheme.FlatMap(affiliations, AffEntryFn(matched)) <==> EntryOfAffiliation(matched, affiliations, e)
  {
    Scheme.FlatMapIn(affiliations, AffEntryFn(matched), e);
  }

  /**
    * When every affiliation of every extracted author has an entry, as the
    * dictionary built from the papers' affiliations ensures, no record
    * raises unless a declared author has nobody to be paired with.
    */
  lemma MatchedAuthorsCovered(sim: (string, string) -> real, arxivAuthors: seq<Author>, extAuthors: seq<Author>,
                              matched: map<string, Option<AffMatch>>)
    requires forall k :: 0 <= k < |extAuthors| ==> AllKeyed(matched, extAuthors[k].affiliations)
    ensures MatchedAuthors(sim, arxivAuthors, extAuthors, matched).Some? <==> |extAuthors| > 0 || arxivAuthors == []
  {
    if |extAuthors| > 0 || arxivAuthors == [] {
      MatchedAuthorsRaise(sim, arxivAuthors, extAuthors, matched);
      ExtractAuthorAff.MatchingsPairs(sim, arxivAuthors, extAuthors);
      var ms := ExtractAuthorAff.Matchings(sim, arxivAuthors, extAuthors);
      forall k | 0 <= k < |arxivAuthors|
        ensures AllKeyed(matched, ms[k].ext.affiliations)
      {
        var i :| 0 <= i < |extAuthors| && extAuthors[i] == ms[k].ext;
      }
    }
  }

  // ----------------------------------------------------------------------
  // _get_best_extraction
  // ----------------------------------------------------------------------

  /** The index the running best of `_get_best_extraction` ends at. */
  function FirstMaxIndex(extractions: seq<ExtractAuthorAff.ExtResults>): (k: nat)
    requires extractions != []
    ensures k < |extractions|
    decreases |extractions|
  {
    if |extractions| == 1 then 0
    else
      var b := FirstMaxIndex(extractions[..|extractions| - 1]);
      if extractions[|extractions| - 1].score > extractions[b].score then |extractions| - 1 else b
  }

  /** `_get_best_extraction`; `None` is the `IndexError` of no extractions. */
  function BestExtraction(extractions: seq<ExtractAuthorAff.ExtResults>): Option<ExtractAuthorAff.ExtResults> {
    if extractions == [] then None else Some(extractions[FirstMaxIndex(extractions)])
  }

  /** `_get_best_extraction`. */
  method GetBestExtraction(extractions: seq<ExtractAuthorAff.ExtResults>) returns (r: Option<ExtractAuthorAff.ExtResults>)
    ensures r == BestExtraction(extractions)
  {
    if |extractions| == 0 {
      return None;
    }
    if |extractions| == 1 {
      return Some(extractions[0]);
    }
    var best := extractions[0];
    for i := 1 to |extractions|
      invariant best == extractions[FirstMaxIndex(extractions[..i])]
    {
      assert extractions[..i + 1][..i] == extractions[..i];
      if extractions[i].score > best.score {
        best := extractions[i];
      }
    }
    assert extractions[..|extractions|] == extractions;
    r := Some(best);
  }

  /** Extraction `k` has the highest score, and every extraction before it a lower one. */
  predicate FirstMaxAt(extractions: seq<ExtractAuthorAff.ExtResults>, k: int) {
    0 <= k < |extractions| &&
    (forall j :: 0 <= j < |extractions| ==> extractions[j].score <= extractions[k].score) &&
    (forall j :: 0 <= j < k ==> extractions[j].score < extractions[k].score)
  }

  lemma {:induction false} FirstMaxIndexIsFirstMax(extractions: seq<ExtractAuthorAff.ExtResults>)
    requires extractions != []
    ensures FirstMaxAt(extractions, FirstMaxIndex(extractions))
    decreases |extractions|
  {
    if |extractions| > 1 {
      var n := |extractions| - 1;
      var prefix := extractions[..n];
      FirstMaxIndexIsFirstMax(prefix);
      assert forall j :: 0 <= j < n ==> prefix[j] == extractions[j];
    }
  }

  /**
    * No extractions raise; otherwise the result is the first extraction of
    * highest score: later ties do not replace it.
    */
  lemma BestExtractionIsFirstMax(extractions: seq<ExtractAuthorAff.ExtResults>)
    ensures BestExtraction(extractions).None? <==> extractions == []
    ensures extractions != [] ==>
      exists k :: FirstMaxAt(extractions, k) && BestExtraction(extractions) == Some(extractions[k])
  {
    if extractions != [] {
      FirstMaxIndexIsFirstMax(extractions);
    }
  }

  // ----------------------------------------------------------------------
  // _get_paper_affiliations
  // ----------------------------------------------------------------------

  function AffiliationsOfFn(): Author -> seq<string> {
    (a: Author) => a.affiliations
  }

  /**
    * `_get_paper_affiliations` on the extraction file of a paper and whether
    * its matched file exists: the affiliations of its best extraction, none
    * without the file or with a matched file; `None` is the `IndexError` of
    * an empty extraction list.
    */
  function PaperAffiliations(ext: Option<ExtractAuthorAff.ExtAuthorInfo>, matchedExists: bool): Option<set<string>> {
    if ext.None? || matchedExists then Some({})
    else
      match BestExtraction(ext.value.extractions)
      case None => None
      case Some(best) => Some(set a | a in Scheme.FlatMap(best.authors, AffiliationsOfFn()))
  }

  /** An affiliation is collected iff some author of the best extraction has it. */
  lemma PaperAffiliationsOf(ext: Option<ExtractAuthorAff.ExtAuthorInfo>, matchedExists: bool, a: string)
    ensures PaperAffiliations(ext, matchedExists).None? <==> ext.Some? && !matchedExists && ext.value.extractions == []
    ensures ext.Some? && !matchedExists && ext.value.extractions != [] ==>
      var best := BestExtraction(ext.value.extractions).value;
      (a in PaperAffiliations(ext, matchedExists).value <==>
        exists k :: 0 <= k < |best.authors| && a in best.authors[k].affiliations)
  {
    if ext.Some? && !matchedExists && ext.value.extractions != [] {
      var best := BestExtraction(ext.value.extractions).value;
      Scheme.FlatMapIn(best.authors, AffiliationsOfFn(), a);
    }
  }

  // ----------------------------------------------------------------------
  // _run_single_element
  // ----------------------------------------------------------------------

  /** What `_run_single_element` gives for one paper directory. */
  datatype MatchOutcome =
    | NoMatch                                   // returns None
    | Raise                                     // matching raised
    | Matched(matchedAuthors: seq<MatchedAuthor>)

  /**
    * `_run_single_element` after the file reads: `metadata` is the declared
    * author list, `ext` the extraction file, `matchedExists` whether the
    * matched file exists.
    */
  function RunSingleElement(sim: (string, string) -> real, matched: map<string, Option<AffMatch>>,
                            metadata: Option<seq<Author>>, ext: Option<ExtractAuthorAff.ExtAuthorInfo>,
                            matchedExists: bool): MatchOutcome
  {
    if metadata.None? || ext.None? || |ext.value.extractions| == 0 || matchedExists then NoMatch
    else
      var best := BestExtraction(ext.value.extractions).value;
      match MatchedAuthors(sim, metadata.value, best.authors, matched)
      case None => Raise
      case Some(r) => Matched(r)
  }

  /**
    * A paper is matched only with metadata, a non-empty extraction list and
    * no matched file, and gets one record per declared author. When the
    * dictionary holds every affiliation `_get_paper_affiliations` collected
    * for the paper, matching raises only with declared authors and no
    * extracted ones.
    */
  lemma RunSingleElementGuards(sim: (string, string) -> real, matched: map<string, Option<AffMatch>>,
                               metadata: Option<seq<Author>>, ext: Option<ExtractAuthorAff.ExtAuthorInfo>,
                               matchedExists: bool)
    ensures var o := RunSingleElement(sim, matched, metadata, ext, matchedExists);
      o.NoMatch? <==> metadata.None? || ext.None? || ext.value.extractions == [] || matchedExists
    ensures var o := RunSingleElement(sim, matched, metadata, ext, matchedExists);
      o.Matched? ==> |o.matchedAuthors| == |metadata.value|
    ensures var o := RunSingleElement(sim, matched, metadata, ext, matchedExists);
      var collected := PaperAffiliations(ext, matchedExists);
      o.Raise? && collected.Some? && (forall a :: a in collected.value ==> a in matched) ==>
        metadata.value != [] && BestExtraction(ext.value.extractions).value.authors == []
  {
    var o := RunSingleElement(sim, matched, metadata, ext, matchedExists);
    if o.Raise? {
      var collected := PaperAffiliations(ext, matchedExists);
      if collected.Some? && (forall a :: a in collected.value ==> a in matched) {
        var best := BestExtraction(ext.value.extractions).value;
        forall k | 0 <= k < |best.authors|
          ensures AllKeyed(matched, best.authors[k].affiliations)
        {
          forall j | 0 <= j < |best.authors[k].affiliations|
            ensures best.authors[k].affiliations[j] in matched
          {
            PaperAffiliationsOf(ext, matchedExists, best.authors[k].affiliations[j]);
          }
        }
        MatchedAuthorsCovered(sim, metadata.value, best.authors, matched);
      }
    }
  }
}
