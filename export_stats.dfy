/**
  * The bookkeeping of the statistics export: counters kept in dictionaries,
  * the per-scheme score lists, the paper funnel and its drawing
  * coordinates, the score cutoff applied to matched papers, and how often
  * each ROR organisation occurs among the surviving affiliations.
  */
module ExportStats {
  import opened PyStr
  import opened RorData
  import Scheme
  import ExtractAuthorAff
  import MatchData

  const NameCutoffScore: real := 70.0
  /** Declared next to the name cutoff, but never applied. */
  const AffCutoffScore: real := 50.0
  const FunnelSizePerLevel: int := 2
  const FunnelSizePerTransition: int := 1

  // ----------------------------------------------------------------------
  // _inc_dict_counter_single and _inc_dict_counter_iter
  // ----------------------------------------------------------------------

  /** The count a counter holds for `key`, 0 when the key is absent. */
  function Get(stats: map<string, int>, key: string): int {
    if key in stats then stats[key] else 0
  }

  /**
    * `_inc_dict_counter_single`: the key gains `byValue`, starting from
    * nothing when absent; no other key changes.
    */
  function IncSingle(stats: map<string, int>, valueKey: string, byValue: int): (r: map<string, int>)
    ensures r.Keys == stats.Keys + {valueKey}
    ensures r[valueKey] == Get(stats, valueKey) + byValue
    ensures forall k :: k in stats && k != valueKey ==> r[k] == stats[k]
  {
    if valueKey in stats then stats[valueKey := stats[valueKey] + byValue] else stats[valueKey := byValue]
  }

  /** The counter after `_inc_dict_counter_single` for each key in turn. */
  function IncAll(stats: map<string, int>, valueKeys: seq<string>, byValue: int): map<string, int>
    decreases |valueKeys|
  {
    if valueKeys == [] then stats
    else IncSingle(IncAll(stats, valueKeys[..|valueKeys| - 1], byValue), valueKeys[|valueKeys| - 1], byValue)
  }

  /** How often `key` occurs in `keys`. */
  function Occurrences(keys: seq<string>, key: string): nat
    decreases |keys|
  {
    if keys == [] then 0
    else Occurrences(keys[..|keys| - 1], key) + (if keys[|keys| - 1] == key then 1 else 0)
  }

  /** `_inc_dict_counter_iter`. */
  method IncDictCounterIter(stats: map<string, int>, valueKeys: seq<string>, byValue: int) returns (r: map<string, int>)
    ensures r == IncAll(stats, valueKeys, byValue)
  {
    r := stats;
    for i := 0 to |valueKeys|
      invariant r == IncAll(stats, valueKeys[..i], byValue)
    {
      assert valueKeys[..i + 1][..i] == valueKeys[..i];
      r := IncSingle(r, valueKeys[i], byValue);
    }
    assert valueKeys[..|valueKeys|] == valueKeys;
  }

  /**
    * Every key counted is already in the counter or among the keys, and it
    * rises by `byValue` once per occurrence.
    */
  lemma {:induction false} IncAllCounts(stats: map<string, int>, valueKeys: seq<string>, byValue: int, key: string)
    ensures key in IncAll(stats, valueKeys, byValue) <==> key in stats || key in valueKeys
    ensures Get(IncAll(stats, valueKeys, byValue), key) == Get(stats, key) + byValue * Occurrences(valueKeys, key)
  {
    IncAllKeys(stats, valueKeys, byValue, key);
    IncAllGet(stats, valueKeys, byValue, key);
  }

  lemma {:induction false} IncAllKeys(stats: map<string, int>, valueKeys: seq<string>, byValue: int, key: string)
    ensures key in IncAll(stats, valueKeys, byValue) <==> key in stats || key in valueKeys
    decreases |valueKeys|
  {
    if valueKeys != [] {
      var n := |valueKeys| - 1;
      var front := valueKeys[..n];
      IncAllKeys(stats, front, byValue, key);
      assert valueKeys == front + [valueKeys[n]];
      assert key in valueKeys <==> key in front || key == valueKeys[n];
    }
  }

  lemma {:induction false} IncAllGet(stats: map<string, int>, valueKeys: seq<string>, byValue: int, key: string)
    ensures Get(IncAll(stats, valueKeys, byValue), key) == Get(stats, key) + byValue * Occurrences(valueKeys, key)
    decreases |valueKeys|
  {
    if valueKeys != [] {
      var n := |valueKeys| - 1;
      var front := valueKeys[..n];
      IncAllGet(stats, front, byValue, key);
      var before := IncAll(stats, front, byValue);
      var hit := if valueKeys[n] == key then 1 else 0;
      assert Get(IncSingle(before, valueKeys[n], byValue), key) == Get(before, key) + byValue * hit;
      Distribute(byValue, Occurrences(front, key), hit);
    }
  }

  lemma Distribute(a: int, b: int, c: int)
    ensures a * (b + c) == a * b + a * c
  {
  }

  lemma IncAllSnoc(stats: map<string, int>, valueKeys: seq<string>, key: string, byValue: int)
    ensures IncAll(stats, valueKeys + [key], byValue) == IncSingle(IncAll(stats, valueKeys, byValue), key, byValue)
  {
    assert (valueKeys + [key])[..|valueKeys|] == valueKeys;
  }

  lemma {:induction false} IncAllAppend(stats: map<string, int>, a: seq<string>, b: seq<string>, byValue: int)
    ensures IncAll(stats, a + b, byValue) == IncAll(IncAll(stats, a, byValue), b, byValue)
    decreases |b|
  {
    if b == [] {
      assert a + b == a;
    } else {
      var n := |b| - 1;
      IncAllAppend(stats, a, b[..n], byValue);
      assert (a + b)[..|a + b| - 1] == a + b[..n];
    }
  }

  // ----------------------------------------------------------------------
  // ExtStats, CmdStats and FileStats
  // ----------------------------------------------------------------------

  /**
    * `add_score_to_scheme` on the dictionary: the score is appended to the
    * scheme's list, which starts when the scheme is new; no other list
    * changes, and no list is ever left empty.
    */
  function AddScore(scoresByScheme: map<string, seq<real>>, scheme: string, score: real): (r: map<string, seq<real>>)
    ensures r.Keys == scoresByScheme.Keys + {scheme}
    ensures r[scheme] == (if scheme in scoresByScheme then scoresByScheme[scheme] else []) + [score]
    ensures forall k :: k in scoresByScheme && k != scheme ==> r[k] == scoresByScheme[k]
    ensures (forall k :: k in scoresByScheme ==> scoresByScheme[k] != []) ==> forall k :: k in r ==> r[k] != []
  {
    if scheme in scoresByScheme then scoresByScheme[scheme := scoresByScheme[scheme] + [score]]
    else scoresByScheme[scheme := [score]]
  }

  /** `ExtStats`: what was extracted, counted per type and scheme. */
  class ExtStats {
    var extractedAuthors: int
    var bestScores: seq<real>
    var scores: seq<real>
    var extTypes: map<string, int>
    var bestSchemes: map<string, int>
    var schemes: map<string, int>
    var scoresByScheme: map<string, seq<real>>

    constructor()
      ensures extractedAuthors == 0 && bestScores == [] && scores == []
      ensures extTypes == map[] && bestSchemes == map[] && schemes == map[] && scoresByScheme == map[]
    {
      extractedAuthors := 0;
      bestScores := [];
      scores := [];
      extTypes := map[];
      bestSchemes := map[];
      schemes := map[];
      scoresByScheme := map[];
    }

    /** `inc_ext_types`. */
    method IncExtTypes(extType: string)
      modifies this`extTypes
      ensures extTypes == IncSingle(old(extTypes), extType, 1)
    {
      extTypes := IncSingle(extTypes, extType, 1);
    }

    /** `inc_best_schemes`. */
    method IncBestSchemes(bestScheme: string)
      modifies this`bestSchemes
      ensures bestSchemes == IncSingle(old(bestSchemes), bestScheme, 1)
    {
      bestSchemes := IncSingle(bestSchemes, bestScheme, 1);
    }

    /** `inc_schemes`. */
    method IncSchemes(scheme: string)
      modifies this`schemes
      ensures schemes == IncSingle(old(schemes), scheme, 1)
    {
      schemes := IncSingle(schemes, scheme, 1);
    }

    /** `add_score_to_scheme`. */
    method AddScoreToScheme(scheme: string, score: real)
      modifies this`scoresByScheme
      ensures scoresByScheme == AddScore(old(scoresByScheme), scheme, score)
    {
      if scheme in scoresByScheme {
        scoresByScheme := scoresByScheme[scheme := scoresByScheme[scheme] + [score]];
      } else {
        scoresByScheme := scoresByScheme[scheme := [score]];
      }
    }
  }

  /** `CmdStats`: which document classes, commands and command combinations were seen. */
  class CmdStats {
    var extractedCmds: int
    var mostUsedDocClasses: map<string, int>
    var mostUsedCmdNames: map<string, int>
    var mostUsedCmdCombinations: map<string, int>

    constructor()
      ensures extractedCmds == 0 && mostUsedDocClasses == map[] && mostUsedCmdNames == map[] && mostUsedCmdCombinations == map[]
    {
      extractedCmds := 0;
      mostUsedDocClasses := map[];
      mostUsedCmdNames := map[];
      mostUsedCmdCombinations := map[];
    }

    /** `inc_doc_classes`. */
    method IncDocClasses(docClasses: seq<string>)
      modifies this`mostUsedDocClasses
      ensures mostUsedDocClasses == IncAll(old(mostUsedDocClasses), docClasses, 1)
    {
      mostUsedDocClasses := IncDictCounterIter(mostUsedDocClasses, docClasses, 1);
    }

    /** `inc_cmd_names`. */
    method IncCmdNames(cmdNames: seq<string>)
      modifies this`mostUsedCmdNames
      ensures mostUsedCmdNames == IncAll(old(mostUsedCmdNames), cmdNames, 1)
    {
      mostUsedCmdNames := IncDictCounterIter(mostUsedCmdNames, cmdNames, 1);
    }

    /** `inc_cmd_combinations`. */
    method IncCmdCombinations(cmdCombinations: string)
      modifies this`mostUsedCmdCombinations
      ensures mostUsedCmdCombinations == IncSingle(old(mostUsedCmdCombinations), cmdCombinations, 1)
    {
      mostUsedCmdCombinations := IncSingle(mostUsedCmdCombinations, cmdCombinations, 1);
    }
  }

  /** `FileStats`: how many papers were lost at each stage. */
  class FileStats {
    var totalPapers: int
    var noLatex: int
    var noCmds: int
    var noExt: int
    var noMatched: int

    constructor()
      ensures totalPapers == 0 && noLatex == 0 && noCmds == 0 && noExt == 0 && noMatched == 0
    {
      totalPapers := 0;
      noLatex := 0;
      noCmds := 0;
      noExt := 0;
      noMatched := 0;
    }

    /** The failure counters in stage order. */
    function Losses(): seq<int>
      reads this
    {
      [noLatex, noCmds, noExt, noMatched]
    }

    /**
      * `get_funnel_numbers`: five stages from all papers to the matched
      * ones, each losing exactly the next failure counter; with counters
      * that are not negative the stages never grow, and when the failures do
      * not exceed the total none is negative.
      */
    function GetFunnelNumbers(): (r: seq<int>)
      reads this
      ensures |r| == 5 && r[0] == totalPapers
      ensures forall i :: 0 <= i < 4 ==> r[i] - r[i + 1] == Losses()[i]
      ensures noLatex >= 0 && noCmds >= 0 && noExt >= 0 && noMatched >= 0 ==>
        forall i, j :: 0 <= i <= j < 5 ==> r[j] <= r[i]
      ensures (noLatex >= 0 && noCmds >= 0 && noExt >= 0 && noMatched >= 0 &&
               noLatex + noCmds + noExt + noMatched <= totalPapers) ==>
        forall i :: 0 <= i < 5 ==> r[i] >= 0
    {
      [totalPapers,
       totalPapers - noLatex,
       totalPapers - noLatex - noCmds,
       totalPapers - noLatex - noCmds - noExt,
       totalPapers - noLatex - noCmds - noExt - noMatched]
    }
  }

  // ----------------------------------------------------------------------
  // _filter_by_cutoff
  // ----------------------------------------------------------------------

  datatype MatchedAffiliationInfo = MatchedAffiliationInfo(extName: string, matchedRor: ResearchOrganization, score: real)

  datatype MatchedAuthorInfo = MatchedAuthorInfo(arxivName: string, extName: string, score: real, affiliations: seq<MatchedAffiliationInfo>)

  datatype MatchedPaperData = MatchedPaperData(matchedAuthors: seq<MatchedAuthorInfo>)

  /**
    * The data of one paper: its extraction file and its matched file, if
    * any; the metadata and commands, which only the plots read, are not
    * part of this model.
    */
  datatype CombinedData = CombinedData(extAuthors: ExtractAuthorAff.ExtAuthorInfo, matched: Option<MatchedPaperData>)

  /** An affiliation survives when it scores at least the name cutoff. */
  predicate AffKept(affiliation: MatchedAffiliationInfo) {
    affiliation.score >= NameCutoffScore
  }

  function KeptAffiliations(affiliations: seq<MatchedAffiliationInfo>): seq<MatchedAffiliationInfo> {
    Scheme.Filter(affiliations, AffKept)
  }

  /** An author's record after the cutoff: none, or the author with the surviving affiliations. */
  function KeptAuthor(author: MatchedAuthorInfo): seq<MatchedAuthorInfo> {
    if author.score < NameCutoffScore then []
    else
      var filteredAffs := KeptAffiliations(author.affiliations);
      if filteredAffs == [] then [] else [MatchedAuthorInfo(author.arxivName, author.extName, author.score, filteredAffs)]
  }

  function FilteredAuthors(authors: seq<MatchedAuthorInfo>): seq<MatchedAuthorInfo> {
    Scheme.FlatMap(authors, KeptAuthor)
  }

  /** A paper's record after the cutoff: none without matched data. */
  function FilteredPaper(paper: CombinedData): seq<MatchedPaperData> {
    if paper.matched.None? then [] else [MatchedPaperData(FilteredAuthors(paper.matched.value.matchedAuthors))]
  }

  /** Whether a paper has matched data, the papers `_filter_by_cutoff` keeps. */
  predicate HasMatchedData(paper: CombinedData) {
    paper.matched.Some?
  }

  /** The record of a kept paper: its matched authors after the cutoff. */
  function SurvivingRecord(paper: CombinedData): MatchedPaperData {
    MatchedPaperData(FilteredAuthors(if paper.matched.Some? then paper.matched.value.matchedAuthors else []))
  }

  /** `_filter_by_cutoff`. */
  function CutoffFiltered(combinedData: seq<CombinedData>): seq<MatchedPaperData> {
    Scheme.FlatMap(combinedData, FilteredPaper)
  }

  /** The author loop of `_filter_by_cutoff`. */
  method FilterAuthors(matchedAuthors: seq<MatchedAuthorInfo>) returns (filteredAuthors: seq<MatchedAuthorInfo>)
    ensures filteredAuthors == FilteredAuthors(matchedAuthors)
  {
    filteredAuthors := [];
    for i := 0 to |matchedAuthors|
      invariant filteredAuthors == FilteredAuthors(matchedAuthors[..i])
    {
      Scheme.FlatMapStep(matchedAuthors, KeptAuthor, i);
      var author := matchedAuthors[i];
      if author.score < NameCutoffScore {
        continue;
      }
      var filteredAffs := [];
      for j := 0 to |author.affiliations|
        invariant filteredAffs == KeptAffiliations(author.affiliations[..j])
      {
        Scheme.FilterStep(author.affiliations, AffKept, j);
        var affiliation := author.affiliations[j];
        if affiliation.score >= NameCutoffScore {
          filteredAffs := filteredAffs + [affiliation];
        }
      }
      assert author.affiliations[..|author.affiliations|] == author.affiliations;
      if |filteredAffs| == 0 {
        continue;
      }
      filteredAuthors := filteredAuthors + [MatchedAuthorInfo(author.arxivName, author.extName, author.score, filteredAffs)];
    }
    assert matchedAuthors[..|matchedAuthors|] == matchedAuthors;
  }

  /** `_filter_by_cutoff`. */
  method FilterByCutoff(combinedData: seq<CombinedData>) returns (filteredPapers: seq<MatchedPaperData>)
    ensures filteredPapers == CutoffFiltered(combinedData)
  {
    filteredPapers := [];
    for i := 0 to |combinedData|
      invariant filteredPapers == CutoffFiltered(combinedData[..i])
    {
      Scheme.FlatMapStep(combinedData, FilteredPaper, i);
      var matchedData := combinedData[i].matched;
      if matchedData.None? {
        continue;
      }
      var filteredAuthors := FilterAuthors(matchedData.value.matchedAuthors);
      filteredPapers := filteredPapers + [MatchedPaperData(filteredAuthors)];
    }
    assert combinedData[..|combinedData|] == combinedData;
  }

  /**
    * An author record survives exactly when the author scores at least 70
    * and keeps an affiliation, and then it keeps exactly the affiliations
    * scoring at least 70, in order.
    */
  lemma FilteredAuthorsExactly(authors: seq<MatchedAuthorInfo>, x: MatchedAuthorInfo, f: MatchedAffiliationInfo, affiliations: seq<MatchedAffiliationInfo>)
    ensures x in FilteredAuthors(authors) <==>
      exists k :: 0 <= k < |authors| && authors[k].score >= NameCutoffScore && KeptAffiliations(authors[k].affiliations) != [] &&
        x == MatchedAuthorInfo(authors[k].arxivName, authors[k].extName, authors[k].score, KeptAffiliations(authors[k].affiliations))
    ensures f in KeptAffiliations(affiliations) <==> f in affiliations && f.score >= NameCutoffScore
  {
    Scheme.FlatMapIn(authors, KeptAuthor, x);
    Scheme.FilterIn(affiliations, AffKept, f);
  }

  /** The papers kept are exactly those with matched data, in order, each as its record after the cutoff. */
  lemma CutoffKeepsMatched(combinedData: seq<CombinedData>)
    ensures CutoffFiltered(combinedData) == Scheme.Map(Scheme.Filter(combinedData, HasMatchedData), SurvivingRecord)
  {
    forall x: CombinedData
      ensures FilteredPaper(x) == if HasMatchedData(x) then [SurvivingRecord(x)] else []
    {
    }
    Scheme.FlatMapFilterMap(combinedData, FilteredPaper, HasMatchedData, SurvivingRecord);
  }

  /**
    * Papers without matched data are dropped and every other paper keeps
    * its place; every surviving author scores at least 70, has an
    * affiliation, and each of those scores at least 70.
    */
  lemma CutoffSurvivors(combinedData: seq<CombinedData>)
    ensures CutoffFiltered(combinedData) == Scheme.Map(Scheme.Filter(combinedData, HasMatchedData), SurvivingRecord)
    ensures |CutoffFiltered(combinedData)| <= |combinedData|
    ensures (forall k :: 0 <= k < |combinedData| ==> combinedData[k].matched.Some?) ==> |CutoffFiltered(combinedData)| == |combinedData|
    ensures forall p, a :: p in CutoffFiltered(combinedData) && a in p.matchedAuthors ==>
      a.score >= NameCutoffScore && a.affiliations != [] && forall f :: f in a.affiliations ==> f.score >= NameCutoffScore
  {
    CutoffKeepsMatched(combinedData);
    CutoffLength(combinedData);
    SurvivorsClearCutoff(combinedData);
  }

  /** No paper is added, and none is dropped when every paper has matched data. */
  lemma CutoffLength(combinedData: seq<CombinedData>)
    ensures |CutoffFiltered(combinedData)| <= |combinedData|
    ensures (forall k :: 0 <= k < |combinedData| ==> combinedData[k].matched.Some?) ==> |CutoffFiltered(combinedData)| == |combinedData|
  {
    Scheme.FlatMapAtMostOne(combinedData, FilteredPaper);
    if forall k :: 0 <= k < |combinedData| ==> combinedData[k].matched.Some? {
      Scheme.FlatMapOneEach(combinedData, FilteredPaper);
    }
  }

  /** Every surviving author scores at least 70 and keeps an affiliation, each of those scoring at least 70. */
  lemma SurvivorsClearCutoff(combinedData: seq<CombinedData>)
    ensures forall p, a :: p in CutoffFiltered(combinedData) && a in p.matchedAuthors ==>
      a.score >= NameCutoffScore && a.affiliations != [] && forall f :: f in a.affiliations ==> f.score >= NameCutoffScore
  {
    forall p, a | p in CutoffFiltered(combinedData) && a in p.matchedAuthors
      ensures a.score >= NameCutoffScore && a.affiliations != [] && forall f :: f in a.affiliations ==> f.score >= NameCutoffScore
    {
      Scheme.FlatMapIn(combinedData, FilteredPaper, p);
      var k :| 0 <= k < |combinedData| && p in FilteredPaper(combinedData[k]);
      var authors := combinedData[k].matched.value.matchedAuthors;
      Scheme.FlatMapIn(authors, KeptAuthor, a);
      var j :| 0 <= j < |authors| && a in KeptAuthor(authors[j]);
      forall f | f in a.affiliations
        ensures f.score >= NameCutoffScore
      {
        Scheme.FilterIn(authors[j].affiliations, AffKept, f);
      }
    }
  }

  /**
    * The affiliation cutoff of 50 is never applied: an affiliation scoring
    * 60 is dropped although it clears it.
    */
  lemma AffiliationCutoffIsNameCutoff(f: MatchedAffiliationInfo)
    requires f.score == 60.0
    ensures f.score >= AffCutoffScore && KeptAffiliations([f]) == []
  {
    assert [f][..0] == [];
  }

  // ----------------------------------------------------------------------
  // _get_best_extraction
  // ----------------------------------------------------------------------

  /**
    * `_get_best_extraction`: the first extraction of highest score; `None`
    * is the `IndexError` of no extractions.
    */
  method GetBestExtraction(extAuthors: ExtractAuthorAff.ExtAuthorInfo) returns (r: Option<ExtractAuthorAff.ExtResults>)
    ensures r == MatchData.BestExtraction(extAuthors.extractions)
  {
    var extractions := extAuthors.extractions;
    if |extractions| == 0 {
      return None;
    }
    var best := extractions[0];
    for i := 1 to |extractions|
      invariant best == extractions[MatchData.FirstMaxIndex(extractions[..i])]
    {
      assert extractions[..i + 1][..i] == extractions[..i];
      if extractions[i].score > best.score {
        best := extractions[i];
      }
    }
    assert extractions[..|extractions|] == extractions;
    r := Some(best);
  }

  // ----------------------------------------------------------------------
  // _get_funnel_level_coords
  // ----------------------------------------------------------------------

  /** One band of the funnel: its top and bottom and its left and right edges at both. */
  datatype FunnelCoords = FunnelCoords(yCoords: (int, int), x1Coords: (int, int), x2Coords: (int, int))

  /** `int(d / 2)`: half, truncated toward zero. */
  function TruncHalf(d: int): (r: int)
    ensures d >= 0 ==> 0 <= 2 * r <= d && d - 2 * r <= 1
    ensures d < 0 ==> d <= 2 * r <= 0 && 2 * r - d <= 1
  {
    if d >= 0 then d / 2 else -((-d) / 2)
  }

  /** The left edge of level `i`: each level moves in by half the drop from the one before. */
  function LevelX1(nums: seq<int>, i: nat): int
    requires i < |nums|
  {
    if i == 0 then 0 else LevelX1(nums, i - 1) + TruncHalf(nums[i - 1] - nums[i])
  }

  /** The right edge of level `i`. */
  function LevelX2(nums: seq<int>, i: nat): int
    requires i < |nums|
  {
    if i == 0 then nums[0] else LevelX2(nums, i - 1) - TruncHalf(nums[i - 1] - nums[i])
  }

  /** The top of the funnel for `n` levels. */
  function FunnelTop(n: nat): int {
    n * FunnelSizePerLevel + (n - 1) * FunnelSizePerTransition
  }

  /** Level `i`: two units tall, three units below level `i - 1`, between the level's edges. */
  function LevelBand(nums: seq<int>, i: nat): FunnelCoords
    requires i < |nums|
  {
    var y := FunnelTop(|nums|) - 3 * i;
    FunnelCoords((y, y - 2), (LevelX1(nums, i), LevelX1(nums, i)), (LevelX2(nums, i), LevelX2(nums, i)))
  }

  /** The transition into level `i`: one unit tall, from the edges of level `i - 1` to those of level `i`. */
  function TransitionBand(nums: seq<int>, i: nat): FunnelCoords
    requires 0 < i < |nums|
  {
    var y := FunnelTop(|nums|) - 3 * i;
    FunnelCoords((y + 1, y), (LevelX1(nums, i - 1), LevelX1(nums, i)), (LevelX2(nums, i - 1), LevelX2(nums, i)))
  }

  /** Band `k` of the funnel: even bands are levels, odd bands the transitions between them. */
  function CoordAt(nums: seq<int>, k: nat): FunnelCoords
    requires k < 2 * |nums| - 1
  {
    if k % 2 == 0 then LevelBand(nums, k / 2) else TransitionBand(nums, (k + 1) / 2)
  }

  /** The first `m` bands. */
  function Bands(nums: seq<int>, m: nat): seq<FunnelCoords>
    requires m <= 2 * |nums| - 1
  {
    seq(m, k requires 0 <= k < m => CoordAt(nums, k))
  }

  /** `_get_funnel_level_coords`; `None` is the `IndexError` of no numbers. */
  function FunnelLevelCoords(nums: seq<int>): Option<seq<FunnelCoords>> {
    if nums == [] then None else Some(Bands(nums, 2 * |nums| - 1))
  }

  /** Band `2i` is level `i`, and band `2i - 1` the transition into it. */
  lemma BandAt(nums: seq<int>, i: nat)
    requires i < |nums|
    ensures CoordAt(nums, 2 * i) == LevelBand(nums, i)
    ensures i > 0 ==> CoordAt(nums, 2 * i - 1) == TransitionBand(nums, i)
  {
    assert (2 * i) % 2 == 0 && (2 * i) / 2 == i;
    if i > 0 {
      assert (2 * i - 1) % 2 == 1 && (2 * i - 1 + 1) / 2 == i;
    }
  }

  /** A loop step appends the transition into level `i` and level `i`. */
  lemma BandsStep(nums: seq<int>, i: nat)
    requires 0 < i < |nums|
    ensures Bands(nums, 2 * i + 1) == Bands(nums, 2 * i - 1) + [TransitionBand(nums, i), LevelBand(nums, i)]
  {
    BandAt(nums, i);
  }

  /** `_get_funnel_level_coords`. */
  method GetFunnelLevelCoords(funnelNumbers: seq<int>) returns (r: Option<seq<FunnelCoords>>)
    ensures r == FunnelLevelCoords(funnelNumbers)
  {
    if |funnelNumbers| == 0 {
      return None;
    }
    var n := |funnelNumbers|;
    var currTotal := funnelNumbers[0];
    var currY := n * FunnelSizePerLevel + (n - 1) * FunnelSizePerTransition;
    var coords := [FunnelCoords((currY, currY - FunnelSizePerLevel), (0, 0), (currTotal, currTotal))];
    currY := currY - FunnelSizePerLevel;
    BandAt(funnelNumbers, 0);
    assert coords == Bands(funnelNumbers, 1);
    for j := 1 to n
      invariant coords == Bands(funnelNumbers, 2 * j - 1)
      invariant coords[2 * j - 2] == LevelBand(funnelNumbers, j - 1)
      invariant currY == FunnelTop(n) - 3 * (j - 1) - 2
      invariant currTotal == funnelNumbers[j - 1]
    {
      BandsStep(funnelNumbers, j);
      var funnelNumber := funnelNumbers[j];
      var transitionY := (currY, currY - FunnelSizePerTransition);
      currY := currY - FunnelSizePerTransition;
      var levelY := (currY, currY - FunnelSizePerLevel);
      currY := currY - FunnelSizePerLevel;
      var diffLevels := currTotal - funnelNumber;
      currTotal := currTotal - diffLevels;
      var levelOffset := TruncHalf(diffLevels);
      var last := coords[|coords| - 1];
      var levelX1 := last.x1Coords.0 + levelOffset;
      var levelX2 := last.x2Coords.0 - levelOffset;
      var transition := FunnelCoords(transitionY, (last.x1Coords.0, levelX1), (last.x2Coords.0, levelX2));
      var level := FunnelCoords(levelY, (levelX1, levelX1), (levelX2, levelX2));
      assert transition == TransitionBand(funnelNumbers, j);
      assert level == LevelBand(funnelNumbers, j);
      coords := coords + [transition, level];
    }
    r := Some(coords);
  }

  /** The funnel has `2n - 1` bands, from `2n + (n - 1)` down to 0. */
  lemma FunnelSpan(nums: seq<int>)
    requires nums != []
    ensures var cs := FunnelLevelCoords(nums).value;
      |cs| == 2 * |nums| - 1 &&
      cs[0].yCoords.0 == 2 * |nums| + (|nums| - 1) && cs[|cs| - 1].yCoords.1 == 0
  {
    BandAt(nums, 0);
    BandAt(nums, |nums| - 1);
  }

  /** Each band starts where the one above ends; levels are two units tall and transitions one. */
  lemma FunnelBandsJoin(nums: seq<int>)
    requires nums != []
    ensures var cs := FunnelLevelCoords(nums).value;
      forall k :: 0 <= k < |cs| - 1 ==> cs[k].yCoords.1 == cs[k + 1].yCoords.0
    ensures var cs := FunnelLevelCoords(nums).value;
      forall k :: 0 <= k < |cs| ==> cs[k].yCoords.0 - cs[k].yCoords.1 == if k % 2 == 0 then 2 else 1
  {
    var cs := FunnelLevelCoords(nums).value;
    forall k | 0 <= k < |cs|
      ensures cs[k].yCoords.0 - cs[k].yCoords.1 == if k % 2 == 0 then 2 else 1
      ensures k < |cs| - 1 ==> cs[k].yCoords.1 == cs[k + 1].yCoords.0
    {
      if k % 2 == 0 {
        var i := k / 2;
        assert k == 2 * i;
        BandAt(nums, i);
        if k < |cs| - 1 {
          BandAt(nums, i + 1);
          assert k + 1 == 2 * (i + 1) - 1;
        }
      } else {
        var i := (k + 1) / 2;
        assert k == 2 * i - 1;
        BandAt(nums, i);
      }
    }
  }

  /** A transition band joins the edges of the level above to those of the level below. */
  lemma FunnelTransitions(nums: seq<int>)
    requires nums != []
    ensures var cs := FunnelLevelCoords(nums).value;
      forall k :: 0 < k < |cs| - 1 && k % 2 == 1 ==>
        cs[k].x1Coords == (cs[k - 1].x1Coords.1, cs[k + 1].x1Coords.0) &&
        cs[k].x2Coords == (cs[k - 1].x2Coords.1, cs[k + 1].x2Coords.0)
  {
    var cs := FunnelLevelCoords(nums).value;
    forall k | 0 < k < |cs| - 1 && k % 2 == 1
      ensures cs[k].x1Coords == (cs[k - 1].x1Coords.1, cs[k + 1].x1Coords.0)
      ensures cs[k].x2Coords == (cs[k - 1].x2Coords.1, cs[k + 1].x2Coords.0)
    {
      assert cs[k - 1] == CoordAt(nums, k - 1) && cs[k] == CoordAt(nums, k) && cs[k + 1] == CoordAt(nums, k + 1);
      TransitionBandEdges(nums, k);
    }
  }

  /** The odd band `k` joins its neighbours' edges. */
  lemma TransitionBandEdges(nums: seq<int>, k: nat)
    requires 0 < k < 2 * |nums| - 2 && k % 2 == 1
    ensures CoordAt(nums, k).x1Coords == (CoordAt(nums, k - 1).x1Coords.1, CoordAt(nums, k + 1).x1Coords.0)
    ensures CoordAt(nums, k).x2Coords == (CoordAt(nums, k - 1).x2Coords.1, CoordAt(nums, k + 1).x2Coords.0)
  {
    var i := (k + 1) / 2;
    assert k == 2 * i - 1 && k - 1 == 2 * i - 2 && k + 1 == 2 * i;
    TransitionEdges(nums, i);
  }

  /** The top and bottom of band `k`, three units lower per level. */
  lemma BandY(nums: seq<int>, k: nat)
    requires k < 2 * |nums| - 1
    ensures var top := FunnelTop(|nums|);
      CoordAt(nums, k).yCoords ==
        if k % 2 == 0 then (top - 3 * (k / 2), top - 3 * (k / 2) - 2)
        else (top - 3 * (k / 2) - 2, top - 3 * (k / 2) - 3)
  {
    if k % 2 == 0 {
      assert k == 2 * (k / 2);
      BandAt(nums, k / 2);
    } else {
      var i := (k + 1) / 2;
      assert k == 2 * i - 1 && k / 2 == i - 1;
      BandAt(nums, i);
    }
  }

  /** The transition into level `i` runs from the edges of level `i - 1` to those of level `i`. */
  lemma TransitionEdges(nums: seq<int>, i: nat)
    requires 0 < i < |nums|
    ensures CoordAt(nums, 2 * i - 1).x1Coords == (CoordAt(nums, 2 * i - 2).x1Coords.1, CoordAt(nums, 2 * i).x1Coords.0)
    ensures CoordAt(nums, 2 * i - 1).x2Coords == (CoordAt(nums, 2 * i - 2).x2Coords.1, CoordAt(nums, 2 * i).x2Coords.0)
  {
    BandAt(nums, i);
    BandAt(nums, i - 1);
    assert 2 * (i - 1) == 2 * i - 2;
  }

  /**
    * Level `i` is centred on the first level: its edges add up to the first
    * number, and its width is the `i`-th number up to one unit of
    * truncation per level, exactly when every drop is even.
    */
  lemma {:induction false} LevelWidth(nums: seq<int>, i: nat)
    requires i < |nums|
    ensures LevelX1(nums, i) + LevelX2(nums, i) == nums[0]
    ensures var width := LevelX2(nums, i) - LevelX1(nums, i);
      nums[i] - i <= width <= nums[i] + i
    ensures (forall j :: 0 < j <= i ==> (nums[j - 1] - nums[j]) % 2 == 0) ==> LevelX2(nums, i) - LevelX1(nums, i) == nums[i]
  {
    if i > 0 {
      LevelWidth(nums, i - 1);
      var d := nums[i - 1] - nums[i];
      if d >= 0 {
        assert d % 2 == 0 ==> 2 * TruncHalf(d) == d;
      } else {
        assert d % 2 == 0 ==> 2 * TruncHalf(d) == d;
      }
    }
  }

  // ----------------------------------------------------------------------
  // _get_ror_org_occ
  // ----------------------------------------------------------------------

  function AffRorId(affiliation: MatchedAffiliationInfo): string {
    affiliation.matchedRor.rorId
  }

  function AuthorRorIds(author: MatchedAuthorInfo): seq<string> {
    Scheme.Map(author.affiliations, AffRorId)
  }

  function PaperRorIds(paper: MatchedPaperData): seq<string> {
    Scheme.FlatMap(paper.matchedAuthors, AuthorRorIds)
  }

  /** The organisation id of every affiliation of every author of every paper, in order. */
  function OccurringRorIds(papers: seq<MatchedPaperData>): seq<string> {
    Scheme.FlatMap(papers, PaperRorIds)
  }

  /** `_get_ror_org_occ`. */
  function RorOrgOcc(papers: seq<MatchedPaperData>): map<string, int> {
    IncAll(map[], OccurringRorIds(papers), 1)
  }

  /** The affiliation loop of `_get_ror_org_occ`. */
  method CountAuthorOrgs(rorOrgs: map<string, int>, author: MatchedAuthorInfo) returns (r: map<string, int>)
    ensures r == IncAll(rorOrgs, AuthorRorIds(author), 1)
  {
    r := rorOrgs;
    var affiliations := author.affiliations;
    ghost var ids: seq<string> := [];
    for l := 0 to |affiliations|
      invariant ids == Scheme.Map(affiliations[..l], AffRorId)
      invariant r == IncAll(rorOrgs, ids, 1)
    {
      Scheme.MapStep(affiliations, AffRorId, l);
      var rorOrg := affiliations[l].matchedRor;
      var rorId := rorOrg.rorId;
      IncAllSnoc(rorOrgs, ids, rorId, 1);
      ids := ids + [rorId];
      if rorId !in r {
        r := r[rorId := 1];
      } else {
        r := r[rorId := r[rorId] + 1];
      }
    }
    assert affiliations[..|affiliations|] == affiliations;
  }

  /** `_get_ror_org_occ`. */
  method GetRorOrgOcc(filteredPapers: seq<MatchedPaperData>) returns (rorOrgs: map<string, int>)
    ensures rorOrgs == RorOrgOcc(filteredPapers)
  {
    rorOrgs := map[];
    for i := 0 to |filteredPapers|
      invariant rorOrgs == IncAll(map[], OccurringRorIds(filteredPapers[..i]), 1)
    {
      Scheme.FlatMapStep(filteredPapers, PaperRorIds, i);
      IncAllAppend(map[], OccurringRorIds(filteredPapers[..i]), PaperRorIds(filteredPapers[i]), 1);
      var authors := filteredPapers[i].matchedAuthors;
      var before := rorOrgs;
      for j := 0 to |authors|
        invariant rorOrgs == IncAll(before, Scheme.FlatMap(authors[..j], AuthorRorIds), 1)
      {
        Scheme.FlatMapStep(authors, AuthorRorIds, j);
        IncAllAppend(before, Scheme.FlatMap(authors[..j], AuthorRorIds), AuthorRorIds(authors[j]), 1);
        rorOrgs := CountAuthorOrgs(rorOrgs, authors[j]);
      }
      assert authors[..|authors|] == authors;
    }
    assert filteredPapers[..|filteredPapers|] == filteredPapers;
  }

  /**
    * An organisation is counted exactly when some affiliation of some
    * author of some paper matched it, and its count is the number of such
    * affiliations.
    */
  lemma RorOrgOccCounts(papers: seq<MatchedPaperData>, rorId: string)
    ensures rorId in RorOrgOcc(papers) <==>
      exists k, j, l :: 0 <= k < |papers| && 0 <= j < |papers[k].matchedAuthors| &&
        0 <= l < |papers[k].matchedAuthors[j].affiliations| &&
        papers[k].matchedAuthors[j].affiliations[l].matchedRor.rorId == rorId
    ensures Get(RorOrgOcc(papers), rorId) == Occurrences(OccurringRorIds(papers), rorId)
  {
    IncAllCounts(map[], OccurringRorIds(papers), 1, rorId);
    Scheme.FlatMapIn(papers, PaperRorIds, rorId);
    forall k | 0 <= k < |papers|
      ensures rorId in PaperRorIds(papers[k]) <==>
        exists j, l :: 0 <= j < |papers[k].matchedAuthors| && 0 <= l < |papers[k].matchedAuthors[j].affiliations| &&
          papers[k].matchedAuthors[j].affiliations[l].matchedRor.rorId == rorId
    {
      PaperIdsIn(papers[k], rorId);
    }
  }

  lemma PaperIdsIn(paper: MatchedPaperData, rorId: string)
    ensures rorId in PaperRorIds(paper) <==>
      exists j, l :: 0 <= j < |paper.matchedAuthors| && 0 <= l < |paper.matchedAuthors[j].affiliations| &&
        paper.matchedAuthors[j].affiliations[l].matchedRor.rorId == rorId
  {
    Scheme.FlatMapIn(paper.matchedAuthors, AuthorRorIds, rorId);
    forall j | 0 <= j < |paper.matchedAuthors|
      ensures rorId in AuthorRorIds(paper.matchedAuthors[j]) <==>
        exists l :: 0 <= l < |paper.matchedAuthors[j].affiliations| && paper.matchedAuthors[j].affiliations[l].matchedRor.rorId == rorId
    {
      Scheme.MapAt(paper.matchedAuthors[j].affiliations, AffRorId);
    }
  }
}
