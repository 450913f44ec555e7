/**
  * Scoring an extraction against the authors arXiv lists, pairing the two
  * author lists by name, and running the scheme catalogue over the
  * extracted commands of one paper.
  *
  * The name similarity (`Indel.normalized_similarity` or `fuzz.ratio`,
  * each after rapidfuzz's `default_process`) is the oracle `sim`; scores are
  * `real`s.
  */
module ExtractAuthorAff {
  import opened PyStr
  import opened Authors
  import opened ExtractCmds
  import CmdUtil
  import Scheme

  /** One `(score, (arxiv_author, ext_author))` of a name matching. */
  datatype Matching = Matching(score: real, arxiv: Author, ext: Author)

  /** `ExtResults`: the authors one scheme extracted and their score. */
  datatype ExtResults = ExtResults(schemeName: string, authors: seq<Author>, score: real)

  /** `ExtAuthorInfo`: how the extraction ran (`single`, `multi` or `wrapped_multi`) and its results. */
  datatype ExtAuthorInfo = ExtAuthorInfo(extType: string, extractions: seq<ExtResults>)

  /** A similarity oracle whose scores lie in `[0, 1]`, as `Indel.normalized_similarity`'s do. */
  ghost predicate SimBounded(sim: (string, string) -> real) {
    forall a, b :: 0.0 <= sim(a, b) <= 1.0
  }

  // ----------------------------------------------------------------------
  // _score_author_ratio and _weighted_arithmetic_mean
  // ----------------------------------------------------------------------

  /**
    * `_score_author_ratio`: the share of the declared authors that were
    * extracted, and past the declared count a penalty that reaches 0 at
    * twice that count.
    */
  function ScoreAuthorRatio(lenArxiv: nat, lenExt: nat): (r: real)
    ensures 0.0 <= r <= 1.0
    ensures r == 1.0 <==> lenArxiv > 0 && lenExt == lenArxiv
  {
    if lenArxiv == 0 then 0.0
    else if lenExt <= lenArxiv then RatioBelow(lenExt, lenArxiv)
    else if lenExt >= lenArxiv * 2 then 0.0
    else RatioBelow(2 * lenArxiv - lenExt, lenArxiv)
  }

  /** `a / b` for `a <= b`. */
  function RatioBelow(a: nat, b: nat): (r: real)
    requires 0 < b && a <= b
    ensures 0.0 <= r <= 1.0 && (r == 1.0 <==> a == b)
  {
    DivBelow(a as real, b as real);
    a as real / b as real
  }

  lemma DivBelow(a: real, b: real)
    requires 0.0 < b && 0.0 <= a <= b
    ensures 0.0 <= a / b <= 1.0 && (a / b == 1.0 <==> a == b)
  {
    assert a / b * b == a;
  }

  /**
    * Extracting fewer authors than declared scores more the more are found;
    * extracting more scores less the more there are, so six authors found
    * for five declared beat eight.
    */
  lemma ScoreAuthorRatioOrder(lenArxiv: nat, e1: nat, e2: nat)
    requires lenArxiv > 0 && e1 <= e2
    ensures e2 <= lenArxiv ==> ScoreAuthorRatio(lenArxiv, e1) <= ScoreAuthorRatio(lenArxiv, e2)
    ensures lenArxiv <= e1 ==> ScoreAuthorRatio(lenArxiv, e1) >= ScoreAuthorRatio(lenArxiv, e2)
  {
    var d := lenArxiv as real;
    if e2 <= lenArxiv {
      DivMonotone(e1 as real, e2 as real, d);
    } else if lenArxiv <= e1 && e2 < lenArxiv * 2 {
      DivMonotone((2 * lenArxiv - e2) as real, (2 * lenArxiv - e1) as real, d);
    }
  }

  lemma DivMonotone(a: real, b: real, d: real)
    requires 0.0 < d && a <= b
    ensures a / d <= b / d
  {
    assert b / d - a / d == (b - a) / d;
  }

  /** `sum(score * weight) / sum(weights)` over a prefix. */
  function WeightedSum(sw: seq<(real, real)>): real
    decreases |sw|
  {
    if sw == [] then 0.0 else WeightedSum(sw[..|sw| - 1]) + sw[|sw| - 1].0 * sw[|sw| - 1].1
  }

  function WeightSum(sw: seq<(real, real)>): real
    decreases |sw|
  {
    if sw == [] then 0.0 else WeightSum(sw[..|sw| - 1]) + sw[|sw| - 1].1
  }

  /** `_weighted_arithmetic_mean`: `None` is the `ZeroDivisionError` of weights that sum to 0. */
  function WeightedMean(sw: seq<(real, real)>): Option<real> {
    if WeightSum(sw) == 0.0 then None else Some(WeightedSum(sw) / WeightSum(sw))
  }

  /** Scores in `[0, 1]` with non-negative weights that do not all vanish have a mean in `[0, 1]`. */
  lemma WeightedMeanBounded(sw: seq<(real, real)>)
    requires forall k :: 0 <= k < |sw| ==> 0.0 <= sw[k].0 <= 1.0 && 0.0 <= sw[k].1
    requires WeightSum(sw) != 0.0
    ensures WeightedMean(sw).Some? && 0.0 <= WeightedMean(sw).value <= 1.0
  {
    WeightedSumBelow(sw);
    DivBelow(WeightedSum(sw), WeightSum(sw));
  }

  lemma {:induction false} WeightedSumBelow(sw: seq<(real, real)>)
    requires forall k :: 0 <= k < |sw| ==> 0.0 <= sw[k].0 <= 1.0 && 0.0 <= sw[k].1
    ensures 0.0 <= WeightedSum(sw) <= WeightSum(sw)
    decreases |sw|
  {
    if sw != [] {
      var p := sw[..|sw| - 1];
      assert forall k :: 0 <= k < |p| ==> p[k] == sw[k];
      WeightedSumBelow(p);
      MulBelow(sw[|sw| - 1].0, sw[|sw| - 1].1);
    }
  }

  lemma MulBelow(s: real, w: real)
    requires 0.0 <= s <= 1.0 && 0.0 <= w
    ensures 0.0 <= s * w <= w
  {
    assert w - s * w == (1.0 - s) * w;
  }

  /** With the weights 0.5, 0.2 and 0.3, which sum to 1, the mean is the weighted sum itself. */
  lemma ThreeWeights(a: real, b: real, c: real)
    ensures WeightedMean([(a, 0.5), (b, 0.2), (c, 0.3)]) == Some(0.5 * a + 0.2 * b + 0.3 * c)
  {
    var sw: seq<(real, real)> := [(a, 0.5), (b, 0.2), (c, 0.3)];
    var none: seq<(real, real)> := [];
    var two, one := sw[..2], sw[..2][..1];
    assert two == [(a, 0.5), (b, 0.2)] && one == [(a, 0.5)] && one[..0] == none;
    assert WeightSum(one) == 0.5 && WeightedSum(one) == a * 0.5;
    assert WeightSum(two) == 0.7 && WeightedSum(two) == a * 0.5 + b * 0.2;
    assert WeightSum(sw) == 1.0 && WeightedSum(sw) == a * 0.5 + b * 0.2 + c * 0.3;
  }

  // ----------------------------------------------------------------------
  // _match_name
  // ----------------------------------------------------------------------

  /**
    * The index `process.extractOne` reports on the candidates' names: the
    * earliest of the names the query is most similar to.
    */
  function BestIndex(sim: (string, string) -> real, query: string, candidates: seq<Author>): (r: nat)
    requires |candidates| > 0
    ensures r < |candidates|
    ensures forall k :: 0 <= k < |candidates| ==> sim(query, candidates[k].name) <= sim(query, candidates[r].name)
    ensures forall k :: 0 <= k < r ==> sim(query, candidates[k].name) < sim(query, candidates[r].name)
    decreases |candidates|
  {
    if |candidates| == 1 then 0
    else
      var n := |candidates| - 1;
      var b := BestIndex(sim, query, candidates[..n]);
      if sim(query, candidates[n].name) > sim(query, candidates[b].name) then n else b
  }

  /**
    * `_match_name`: the declared author paired with the earliest candidate
    * whose name is most similar to it, and that similarity.
    */
  function MatchName(sim: (string, string) -> real, arxivAuthor: Author, candidates: seq<Author>): (r: Matching)
    requires |candidates| > 0
    ensures r.arxiv == arxivAuthor && r.ext in candidates && r.score == sim(arxivAuthor.name, r.ext.name)
    ensures forall c :: c in candidates ==> sim(arxivAuthor.name, c.name) <= r.score
  {
    var i := BestIndex(sim, arxivAuthor.name, candidates);
    Matching(sim(arxivAuthor.name, candidates[i].name), arxivAuthor, candidates[i])
  }

  // ----------------------------------------------------------------------
  // _match_unequal_cardinality
  // ----------------------------------------------------------------------

  /** `_match_unequal_cardinality`: every declared author matched against the whole extracted list. */
  function UnequalRun(sim: (string, string) -> real, arxivAuthors: seq<Author>, extAuthors: seq<Author>): (r: seq<Matching>)
    requires |extAuthors| > 0 || arxivAuthors == []
    ensures |r| == |arxivAuthors|
    decreases |arxivAuthors|
  {
    if arxivAuthors == [] then []
    else
      var n := |arxivAuthors| - 1;
      UnequalRun(sim, arxivAuthors[..n], extAuthors) + [MatchName(sim, arxivAuthors[n], extAuthors)]
  }

  /** `_match_unequal_cardinality`. */
  method MatchUnequalCardinality(sim: (string, string) -> real, arxivAuthors: seq<Author>, extAuthors: seq<Author>)
    returns (mostSimilar: seq<Matching>)
    requires |extAuthors| > 0 || arxivAuthors == []
    ensures mostSimilar == UnequalRun(sim, arxivAuthors, extAuthors)
  {
    mostSimilar := [];
    for i := 0 to |arxivAuthors|
      invariant mostSimilar == UnequalRun(sim, arxivAuthors[..i], extAuthors)
    {
      assert arxivAuthors[..i + 1][..i] == arxivAuthors[..i];
      var m := MatchName(sim, arxivAuthors[i], extAuthors);
      mostSimilar := mostSimilar + [m];
    }
    assert arxivAuthors[..|arxivAuthors|] == arxivAuthors;
  }

  /**
    * Unequal cardinality gives one pair per declared author, in order, each
    * the best-scoring candidate of the full, unshrunk extracted list.
    */
  lemma {:induction false} UnequalPairs(sim: (string, string) -> real, arxivAuthors: seq<Author>, extAuthors: seq<Author>)
    requires |extAuthors| > 0 || arxivAuthors == []
    ensures var r := UnequalRun(sim, arxivAuthors, extAuthors);
      forall k :: 0 <= k < |r| ==>
        r[k].arxiv == arxivAuthors[k] && r[k].ext in extAuthors && r[k].score == sim(arxivAuthors[k].name, r[k].ext.name) &&
        forall c :: c in extAuthors ==> sim(arxivAuthors[k].name, c.name) <= r[k].score
    decreases |arxivAuthors|
  {
    if arxivAuthors != [] {
      var n := |arxivAuthors| - 1;
      UnequalPairs(sim, arxivAuthors[..n], extAuthors);
    }
  }

  // ----------------------------------------------------------------------
  // _match_equal_cardinality
  // ----------------------------------------------------------------------

  /** `a == b` for two authors, which runs `a.__eq__(b)`. */
  predicate EqTrue(a: Author, b: Author) {
    Eq(a, AnAuthor(b)) == Some(true)
  }

  /** The position `list.remove(x)` removes: the first element that compares equal to `x`. */
  function FirstEqIndex(pool: seq<Author>, x: Author): (k: nat)
    requires exists j :: 0 <= j < |pool| && EqTrue(pool[j], x)
    ensures k < |pool| && EqTrue(pool[k], x)
    ensures forall j :: 0 <= j < k ==> !EqTrue(pool[j], x)
    decreases |pool|
  {
    if EqTrue(pool[0], x) then 0
    else
      var j :| 0 <= j < |pool| && EqTrue(pool[j], x);
      assert EqTrue(pool[1..][j - 1], x);
      1 + FirstEqIndex(pool[1..], x)
  }

  /** `pool.remove(x)`. */
  function RemoveFirstEq(pool: seq<Author>, x: Author): (r: seq<Author>)
    requires exists j :: 0 <= j < |pool| && EqTrue(pool[j], x)
    ensures var k := FirstEqIndex(pool, x);
      r == pool[..k] + pool[k + 1..] && |r| == |pool| - 1 &&
      multiset(r) == multiset(pool) - multiset{pool[k]}
  {
    var k := FirstEqIndex(pool, x);
    assert pool == pool[..k] + [pool[k]] + pool[k + 1..];
    pool[..k] + pool[k + 1..]
  }

  /** A member of the pool compares equal to itself, so `remove` finds it. */
  lemma InPoolEq(pool: seq<Author>, x: Author)
    requires x in pool
    ensures exists j :: 0 <= j < |pool| && EqTrue(pool[j], x)
  {
    var j :| 0 <= j < |pool| && pool[j] == x;
    EqReflexive(x);
    assert EqTrue(pool[j], x);
  }

  /**
    * One step of `_match_equal_cardinality`: the declared author paired with
    * the best of the candidates left, and that candidate removed from them.
    */
  function EqualStep(sim: (string, string) -> real, arxivAuthor: Author, ms: seq<Matching>, pool: seq<Author>): (r: (seq<Matching>, seq<Author>))
    requires |pool| > 0
    ensures |r.0| == |ms| + 1 && |r.1| == |pool| - 1
  {
    var m := MatchName(sim, arxivAuthor, pool);
    InPoolEq(pool, m.ext);
    (ms + [m], RemoveFirstEq(pool, m.ext))
  }

  /**
    * `_match_equal_cardinality` after the first declared authors: the pairs
    * so far and the candidates left.
    */
  function EqualRun(sim: (string, string) -> real, arxivAuthors: seq<Author>, extAuthors: seq<Author>): (r: (seq<Matching>, seq<Author>))
    requires |arxivAuthors| <= |extAuthors|
    ensures |r.0| == |arxivAuthors| && |r.1| == |extAuthors| - |arxivAuthors|
    decreases |arxivAuthors|
  {
    if arxivAuthors == [] then ([], extAuthors)
    else
      var n := |arxivAuthors| - 1;
      var r := EqualRun(sim, arxivAuthors[..n], extAuthors);
      EqualStep(sim, arxivAuthors[n], r.0, r.1)
  }

  lemma EqualRunStep(sim: (string, string) -> real, arxivAuthors: seq<Author>, extAuthors: seq<Author>, i: nat)
    requires i < |arxivAuthors| <= |extAuthors|
    ensures var r := EqualRun(sim, arxivAuthors[..i], extAuthors);
      EqualRun(sim, arxivAuthors[..i + 1], extAuthors) == EqualStep(sim, arxivAuthors[i], r.0, r.1)
  {
    var p := arxivAuthors[..i + 1];
    assert p != [] && p[..|p| - 1] == arxivAuthors[..i] && p[|p| - 1] == arxivAuthors[i];
  }

  /** `_match_equal_cardinality`. */
  method MatchEqualCardinality(sim: (string, string) -> real, arxivAuthors: seq<Author>, extAuthors: seq<Author>)
    returns (mostSimilar: seq<Matching>)
    requires |arxivAuthors| <= |extAuthors|
    ensures mostSimilar == EqualRun(sim, arxivAuthors, extAuthors).0
  {
    var unmatched := extAuthors;
    mostSimilar := [];
    for i := 0 to |arxivAuthors|
      invariant (mostSimilar, unmatched) == EqualRun(sim, arxivAuthors[..i], extAuthors)
    {
      EqualRunStep(sim, arxivAuthors, extAuthors, i);
      var m := MatchName(sim, arxivAuthors[i], unmatched);
      mostSimilar := mostSimilar + [m];
      InPoolEq(unmatched, m.ext);
      unmatched := RemoveFirstEq(unmatched, m.ext);
    }
    assert arxivAuthors[..|arxivAuthors|] == arxivAuthors;
  }

  /**
    * Pair `k` joins declared author `k` with an extracted author, scored by
    * the similarity of their names.
    */
  ghost predicate PairedInOrder(sim: (string, string) -> real, ms: seq<Matching>, arxivAuthors: seq<Author>, extAuthors: seq<Author>) {
    |ms| == |arxivAuthors| &&
    forall k :: 0 <= k < |ms| ==>
      ms[k].arxiv == arxivAuthors[k] && ms[k].ext in extAuthors && ms[k].score == sim(arxivAuthors[k].name, ms[k].ext.name)
  }

  lemma PairedStep(sim: (string, string) -> real, ms: seq<Matching>, m: Matching, arxivAuthors: seq<Author>, n: nat, extAuthors: seq<Author>)
    requires n < |arxivAuthors| && PairedInOrder(sim, ms, arxivAuthors[..n], extAuthors)
    requires m.arxiv == arxivAuthors[n] && m.ext in extAuthors && m.score == sim(arxivAuthors[n].name, m.ext.name)
    ensures PairedInOrder(sim, ms + [m], arxivAuthors[..n + 1], extAuthors)
  {
    var p := arxivAuthors[..n + 1];
    forall k | 0 <= k < n + 1
      ensures (ms + [m])[k].arxiv == p[k] && (ms + [m])[k].ext in extAuthors
      ensures (ms + [m])[k].score == sim(p[k].name, (ms + [m])[k].ext.name)
    {
      if k < n {
        assert (ms + [m])[k] == ms[k] && arxivAuthors[..n][k] == p[k];
      }
    }
  }

  /**
    * Equal cardinality gives one pair per declared author, in order; each
    * step's candidate is the best of those still left, and the left-over
    * candidates are always drawn from the extracted list.
    */
  lemma {:induction false} EqualPairs(sim: (string, string) -> real, arxivAuthors: seq<Author>, extAuthors: seq<Author>)
    requires |arxivAuthors| <= |extAuthors|
    ensures var (ms, pool) := EqualRun(sim, arxivAuthors, extAuthors);
      multiset(pool) <= multiset(extAuthors) && PairedInOrder(sim, ms, arxivAuthors, extAuthors)
    decreases |arxivAuthors|
  {
    if arxivAuthors != [] {
      var n := |arxivAuthors| - 1;
      EqualPairs(sim, arxivAuthors[..n], extAuthors);
      var (ms, pool) := EqualRun(sim, arxivAuthors[..n], extAuthors);
      var m := MatchName(sim, arxivAuthors[n], pool);
      assert m.ext in multiset(extAuthors) by {
        assert m.ext in multiset(pool);
      }
      EqualRunStep(sim, arxivAuthors, extAuthors, n);
      assert arxivAuthors[..n + 1] == arxivAuthors;
      var left := RemoveFirstEq(pool, m.ext);
      assert multiset(left) <= multiset(pool);
      PairedStep(sim, ms, m, arxivAuthors, n, extAuthors);
    }
  }

  /** The extracted author of each pair. */
  function ExtOf(m: Matching): Author { m.ext }

  /**
    * `remove` takes out the chosen candidate itself: a candidate before it
    * that compared equal would have the same name, hence the same score,
    * and would have been chosen instead.
    */
  lemma RemovesChosen(sim: (string, string) -> real, arxivAuthor: Author, pool: seq<Author>)
    requires |pool| > 0
    ensures var m := MatchName(sim, arxivAuthor, pool);
      (exists j :: 0 <= j < |pool| && EqTrue(pool[j], m.ext)) &&
      FirstEqIndex(pool, m.ext) == BestIndex(sim, arxivAuthor.name, pool)
  {
    var i := BestIndex(sim, arxivAuthor.name, pool);
    var x := pool[i];
    EqReflexive(x);
    assert EqTrue(pool[i], x);
    var k := FirstEqIndex(pool, x);
    assert k <= i;
    assert pool[k].name == x.name;
  }

  /**
    * Each step removes exactly the candidate it chose: the chosen
    * candidates and those left make up the extracted list.
    */
  lemma {:induction false} EqualRunClaims(sim: (string, string) -> real, arxivAuthors: seq<Author>, extAuthors: seq<Author>)
    requires |arxivAuthors| <= |extAuthors|
    ensures var (ms, pool) := EqualRun(sim, arxivAuthors, extAuthors);
      multiset(Scheme.Map(ms, ExtOf)) + multiset(pool) == multiset(extAuthors)
    decreases |arxivAuthors|
  {
    if arxivAuthors != [] {
      var n := |arxivAuthors| - 1;
      EqualRunClaims(sim, arxivAuthors[..n], extAuthors);
      var (ms, pool) := EqualRun(sim, arxivAuthors[..n], extAuthors);
      var m := MatchName(sim, arxivAuthors[n], pool);
      ChosenRemoved(sim, arxivAuthors[n], pool);
      var left := RemoveFirstEq(pool, m.ext);
      EqualRunStep(sim, arxivAuthors, extAuthors, n);
      assert arxivAuthors[..n + 1] == arxivAuthors;
      ClaimStep(ms, m, pool, left, extAuthors);
    }
  }

  /** The candidate `remove` takes out is the chosen one itself. */
  lemma ChosenRemoved(sim: (string, string) -> real, arxivAuthor: Author, pool: seq<Author>)
    requires |pool| > 0
    ensures var m := MatchName(sim, arxivAuthor, pool);
      (exists j :: 0 <= j < |pool| && EqTrue(pool[j], m.ext)) &&
      multiset(RemoveFirstEq(pool, m.ext)) + multiset{m.ext} == multiset(pool)
  {
    var m := MatchName(sim, arxivAuthor, pool);
    RemovesChosen(sim, arxivAuthor, pool);
    var k := FirstEqIndex(pool, m.ext);
    assert pool[k] == m.ext;
    assert pool[k] in multiset(pool);
  }

  lemma ClaimStep(ms: seq<Matching>, m: Matching, pool: seq<Author>, left: seq<Author>, extAuthors: seq<Author>)
    requires multiset(Scheme.Map(ms, ExtOf)) + multiset(pool) == multiset(extAuthors)
    requires multiset(left) + multiset{m.ext} == multiset(pool)
    ensures multiset(Scheme.Map(ms + [m], ExtOf)) + multiset(left) == multiset(extAuthors)
  {
    Scheme.MapStep(ms + [m], ExtOf, |ms|);
    assert (ms + [m])[..|ms|] == ms && (ms + [m])[..|ms| + 1] == ms + [m];
  }

  predicate NoDuplicates(authors: seq<Author>) {
    forall i, j :: 0 <= i < j < |authors| ==> authors[i] != authors[j]
  }

  /** So with an extracted list free of duplicates, no extracted author is claimed twice. */
  lemma EqualRunClaimsOnce(sim: (string, string) -> real, arxivAuthors: seq<Author>, extAuthors: seq<Author>)
    requires |arxivAuthors| <= |extAuthors| && NoDuplicates(extAuthors)
    ensures var ms := EqualRun(sim, arxivAuthors, extAuthors).0;
      forall i, j :: 0 <= i < j < |ms| ==> ms[i].ext != ms[j].ext
  {
    var (ms, pool) := EqualRun(sim, arxivAuthors, extAuthors);
    EqualRunClaims(sim, arxivAuthors, extAuthors);
    var claimed := Scheme.Map(ms, ExtOf);
    Scheme.MapAt(ms, ExtOf);
    forall i, j | 0 <= i < j < |ms|
      ensures ms[i].ext != ms[j].ext
    {
      if ms[i].ext == ms[j].ext {
        TwiceCounted(claimed, i, j);
        NoDuplicatesOnce(extAuthors, ms[i].ext);
        assert false;
      }
    }
  }

  lemma TwiceCounted(s: seq<Author>, i: nat, j: nat)
    requires i < j < |s| && s[i] == s[j]
    ensures multiset(s)[s[i]] >= 2
  {
    assert s == s[..i] + [s[i]] + s[i + 1..j] + [s[j]] + s[j + 1..];
  }

  lemma {:induction false} NoDuplicatesOnce(s: seq<Author>, x: Author)
    requires NoDuplicates(s)
    ensures multiset(s)[x] <= 1
    decreases |s|
  {
    if s != [] {
      var t := s[1..];
      assert s == [s[0]] + t;
      NoDuplicatesOnce(t, x);
      if s[0] == x {
        assert x !in t by {
          forall k | 0 <= k < |t| ensures t[k] != x {
            assert t[k] == s[k + 1];
          }
        }
      }
    }
  }

  // ----------------------------------------------------------------------
  // get_author_matchings_by_name and _score_ext_data
  // ----------------------------------------------------------------------

  /** `get_author_matchings_by_name`: equal-cardinality pairing iff both lists are equally long. */
  function Matchings(sim: (string, string) -> real, arxivAuthors: seq<Author>, extAuthors: seq<Author>): (r: seq<Matching>)
    requires |extAuthors| > 0 || arxivAuthors == []
    ensures |r| == |arxivAuthors|
  {
    if |arxivAuthors| == |extAuthors| then EqualRun(sim, arxivAuthors, extAuthors).0
    else UnequalRun(sim, arxivAuthors, extAuthors)
  }

  /** `get_author_matchings_by_name`. */
  method GetAuthorMatchingsByName(sim: (string, string) -> real, arxivAuthors: seq<Author>, extAuthors: seq<Author>)
    returns (r: seq<Matching>)
    requires |extAuthors| > 0 || arxivAuthors == []
    ensures r == Matchings(sim, arxivAuthors, extAuthors)
  {
    if |arxivAuthors| == |extAuthors| {
      r := MatchEqualCardinality(sim, arxivAuthors, extAuthors);
    } else {
      r := MatchUnequalCardinality(sim, arxivAuthors, extAuthors);
    }
  }

  /** Either way, one pair per declared author, in order, with an extracted author of the list. */
  lemma MatchingsPairs(sim: (string, string) -> real, arxivAuthors: seq<Author>, extAuthors: seq<Author>)
    requires |extAuthors| > 0 || arxivAuthors == []
    ensures var r := Matchings(sim, arxivAuthors, extAuthors);
      forall k :: 0 <= k < |r| ==>
        r[k].arxiv == arxivAuthors[k] && r[k].ext in extAuthors && r[k].score == sim(arxivAuthors[k].name, r[k].ext.name)
  {
    if |arxivAuthors| == |extAuthors| {
      EqualPairs(sim, arxivAuthors, extAuthors);
    } else {
      UnequalPairs(sim, arxivAuthors, extAuthors);
    }
  }

  function SumScores(ms: seq<Matching>): real
    decreases |ms|
  {
    if ms == [] then 0.0 else SumScores(ms[..|ms| - 1]) + ms[|ms| - 1].score
  }

  /** `len([a for a in ext_authors if len(a.affiliations) > 0])`. */
  function CountWithAffiliations(authors: seq<Author>): (n: nat)
    ensures n <= |authors|
    decreases |authors|
  {
    if authors == [] then 0
    else CountWithAffiliations(authors[..|authors| - 1]) + (if authors[|authors| - 1].affiliations != [] then 1 else 0)
  }

  /**
    * `_score_ext_data`: the weighted mean of the author-count ratio (0.5),
    * the mean name similarity (0.2) and the share of authors with an
    * affiliation (0.3). `None` is the error an empty list raises: the mean
    * similarity divides by the number of pairs, the share by the number of
    * extracted authors.
    */
  function ScoreExt(sim: (string, string) -> real, arxivAuthors: seq<Author>, extAuthors: seq<Author>): Option<real> {
    if |arxivAuthors| == 0 || |extAuthors| == 0 then None
    else
      var ms := Matchings(sim, arxivAuthors, extAuthors);
      WeightedMean([
        (ScoreAuthorRatio(|arxivAuthors|, |extAuthors|), 0.5),
        (SumScores(ms) / |ms| as real, 0.2),
        (CountWithAffiliations(extAuthors) as real / |extAuthors| as real, 0.3)])
  }

  /** `_score_ext_data`. */
  method ScoreExtData(sim: (string, string) -> real, arxivAuthors: seq<Author>, extAuthors: seq<Author>)
    returns (r: Option<real>)
    ensures r == ScoreExt(sim, arxivAuthors, extAuthors)
  {
    if |arxivAuthors| == 0 || |extAuthors| == 0 {
      return None;
    }
    var ratio := ScoreAuthorRatio(|arxivAuthors|, |extAuthors|);
    var ms := GetAuthorMatchingsByName(sim, arxivAuthors, extAuthors);
    var nameSimilarity := SumScores(ms) / |ms| as real;
    var withAffRatio := CountWithAffiliations(extAuthors) as real / |extAuthors| as real;
    r := WeightedMean([(ratio, 0.5), (nameSimilarity, 0.2), (withAffRatio, 0.3)]);
  }

  /**
    * A score exists iff both lists are non-empty; it is `0.5·ratio +
    * 0.2·similarity + 0.3·share`, and it lies in `[0, 1]` when the
    * similarity oracle does.
    */
  lemma ScoreExtBounded(sim: (string, string) -> real, arxivAuthors: seq<Author>, extAuthors: seq<Author>)
    ensures ScoreExt(sim, arxivAuthors, extAuthors).Some? <==> |arxivAuthors| > 0 && |extAuthors| > 0
    ensures SimBounded(sim) && |arxivAuthors| > 0 && |extAuthors| > 0 ==>
      0.0 <= ScoreExt(sim, arxivAuthors, extAuthors).value <= 1.0
  {
    if |arxivAuthors| > 0 && |extAuthors| > 0 {
      var ms := Matchings(sim, arxivAuthors, extAuthors);
      var a := ScoreAuthorRatio(|arxivAuthors|, |extAuthors|);
      var b := SumScores(ms) / |ms| as real;
      var c := CountWithAffiliations(extAuthors) as real / |extAuthors| as real;
      ThreeWeights(a, b, c);
      assert ScoreExt(sim, arxivAuthors, extAuthors) == Some(0.5 * a + 0.2 * b + 0.3 * c);
      if SimBounded(sim) {
        MatchingsPairs(sim, arxivAuthors, extAuthors);
        SumScoresBelow(ms);
        DivBelow(SumScores(ms), |ms| as real);
        DivBelow(CountWithAffiliations(extAuthors) as real, |extAuthors| as real);
        MeanBounded(a, b, c);
      }
    }
  }

  /** A weighted mean of three scores in [0, 1] is in [0, 1]. */
  lemma MeanBounded(a: real, b: real, c: real)
    requires 0.0 <= a <= 1.0 && 0.0 <= b <= 1.0 && 0.0 <= c <= 1.0
    ensures 0.0 <= 0.5 * a + 0.2 * b + 0.3 * c <= 1.0
  {
  }

  lemma {:induction false} SumScoresBelow(ms: seq<Matching>)
    requires forall k :: 0 <= k < |ms| ==> 0.0 <= ms[k].score <= 1.0
    ensures 0.0 <= SumScores(ms) <= |ms| as real
    decreases |ms|
  {
    if ms != [] {
      SumScoresBelow(ms[..|ms| - 1]);
    }
  }

  // ----------------------------------------------------------------------
  // The scheme catalogue and the dispatch
  // ----------------------------------------------------------------------

  /**
    * A single-command scheme of the catalogue: its class name and its
    * `validate(cmd_name, cmd_content)` and `extract(cmd_name, cmd_content)`;
    * `None` is a validator or extractor that raises (an `IndexError`, a
    * `StopIteration`, a `ValueError`), which nothing in the dispatch catches.
    */
  datatype SingleScheme = SingleScheme(name: string, validate: (string, string) -> Option<bool>, extract: (string, string) -> Option<seq<Author>>)

  /** A multi-command scheme: `validate(cmds)` and `extract(cmds)` over the sanitized commands, `None` when they raise. */
  datatype MultiScheme = MultiScheme(name: string, validate: seq<string> -> Option<bool>, extract: seq<string> -> Option<seq<Author>>)

  /** The schemes whose validator returns true. */
  function Accepted<X>(accepts: X -> Option<bool>): X -> bool {
    (x: X) => accepts(x) == Some(true)
  }

  /** The accepting schemes in catalogue order, or `None` when some validator raises. */
  function ValidSchemes<X>(schemes: seq<X>, accepts: X -> Option<bool>): Option<seq<X>> {
    if exists k :: 0 <= k < |schemes| && accepts(schemes[k]).None? then None
    else Some(Scheme.Filter(schemes, Accepted(accepts)))
  }

  /** `_identify_valid_single_cmd_schemes` and `_identify_valid_multi_cmd_schemes`. */
  method IdentifyValidSchemes<X>(schemes: seq<X>, accepts: X -> Option<bool>) returns (valid: Option<seq<X>>)
    ensures valid == ValidSchemes(schemes, accepts)
    ensures valid.Some? ==> forall x :: x in valid.value <==> x in schemes && accepts(x) == Some(true)
  {
    var vs: seq<X> := [];
    for i := 0 to |schemes|
      invariant forall k :: 0 <= k < i ==> accepts(schemes[k]).Some?
      invariant vs == Scheme.Filter(schemes[..i], Accepted(accepts))
    {
      Scheme.FilterStep(schemes, Accepted(accepts), i);
      var ok := accepts(schemes[i]);
      if ok.None? {
        return None;
      }
      if ok.value {
        vs := vs + [schemes[i]];
      }
    }
    assert schemes[..|schemes|] == schemes;
    forall x ensures x in vs <==> x in schemes && accepts(x) == Some(true) {
      Scheme.FilterIn(schemes, Accepted(accepts), x);
    }
    return Some(vs);
  }

  /**
    * One turn of the loop over the valid schemes: an empty extraction is
    * skipped, any other is scored and recorded; scoring raises when there
    * are no declared authors.
    */
  function ResultStep<X>(sim: (string, string) -> real, arxivAuthors: seq<Author>, nameOf: X -> string, run: X -> Option<seq<Author>>)
    : (seq<ExtResults>, X) -> Option<seq<ExtResults>>
  {
    (results: seq<ExtResults>, x: X) =>
      match run(x)
      case None => None
      case Some(authors) =>
        if authors == [] then Some(results)
        else
          match ScoreExt(sim, arxivAuthors, authors)
          case None => None
          case Some(score) => Some(results + [ExtResults(nameOf(x), authors, score)])
  }

  /** The results of the valid schemes, or `None` when an extractor or scoring raises. */
  function ScoreAll<X>(sim: (string, string) -> real, arxivAuthors: seq<Author>, xs: seq<X>, nameOf: X -> string, run: X -> Option<seq<Author>>)
    : Option<seq<ExtResults>>
  {
    Scheme.FoldOpt(ResultStep(sim, arxivAuthors, nameOf, run), [], xs)
  }

  /** The loop of `_single_cmd_ext` and `_multi_cmd_ext` over the valid schemes. */
  method ScoreEach<X>(sim: (string, string) -> real, arxivAuthors: seq<Author>, xs: seq<X>, nameOf: X -> string, run: X -> Option<seq<Author>>)
    returns (r: Option<seq<ExtResults>>)
    ensures r == ScoreAll(sim, arxivAuthors, xs, nameOf, run)
  {
    var step := ResultStep(sim, arxivAuthors, nameOf, run);
    var authorAffs: seq<ExtResults> := [];
    for i := 0 to |xs|
      invariant Scheme.FoldOpt(step, [], xs[..i]) == Some(authorAffs)
    {
      Scheme.FoldOptStep(step, [], xs, i);
      var extracted := run(xs[i]);
      if extracted.None? {
        Scheme.FoldOptNoneStays(step, [], xs, i + 1);
        return None;
      }
      var authorAff := extracted.value;
      if authorAff == [] {
        continue;
      }
      var score := ScoreExtData(sim, arxivAuthors, authorAff);
      if score.None? {
        Scheme.FoldOptNoneStays(step, [], xs, i + 1);
        return None;
      }
      authorAffs := authorAffs + [ExtResults(nameOf(xs[i]), authorAff, score.value)];
    }
    assert xs[..|xs|] == xs;
    return Some(authorAffs);
  }

  /** `e` is the entry of scheme `x`: its name, its non-empty extraction and that extraction's score. */
  predicate EntryOf<X>(sim: (string, string) -> real, arxivAuthors: seq<Author>, nameOf: X -> string, run: X -> Option<seq<Author>>, x: X, e: ExtResults) {
    run(x).Some? && run(x).value != [] && e.schemeName == nameOf(x) && e.authors == run(x).value &&
    ScoreExt(sim, arxivAuthors, run(x).value) == Some(e.score)
  }

  /** Running scheme `x` raises: its extractor raises, or it extracts authors that cannot be scored because arXiv lists none. */
  predicate RunRaises<X>(arxivAuthors: seq<Author>, run: X -> Option<seq<Author>>, x: X) {
    run(x).None? || (arxivAuthors == [] && run(x) != Some([]))
  }

  /**
    * The loop raises exactly when some scheme's extractor raises or some
    * scheme extracts authors while arXiv lists none; otherwise the results
    * are one per scheme with a non-empty extraction, each carrying that
    * scheme's name, its authors and their score.
    */
  lemma ScoreAllResults<X>(sim: (string, string) -> real, arxivAuthors: seq<Author>, xs: seq<X>, nameOf: X -> string, run: X -> Option<seq<Author>>)
    ensures ScoreAll(sim, arxivAuthors, xs, nameOf, run).None? <==>
      exists k :: 0 <= k < |xs| && RunRaises(arxivAuthors, run, xs[k])
    ensures forall e :: ScoreAll(sim, arxivAuthors, xs, nameOf, run).Some? ==>
      (e in ScoreAll(sim, arxivAuthors, xs, nameOf, run).value <==>
        exists k :: 0 <= k < |xs| && EntryOf(sim, arxivAuthors, nameOf, run, xs[k], e))
  {
    var step := ResultStep(sim, arxivAuthors, nameOf, run);
    var bad := (x: X) => RunRaises(arxivAuthors, run, x);
    forall results, x
      ensures step(results, x).None? <==> bad(x)
    {
      if run(x).Some? {
        ScoreExtBounded(sim, arxivAuthors, run(x).value);
      }
    }
    Scheme.FoldOptNone(step, [], xs, bad);
    forall e | ScoreAll(sim, arxivAuthors, xs, nameOf, run).Some?
      ensures e in ScoreAll(sim, arxivAuthors, xs, nameOf, run).value <==>
        exists k :: 0 <= k < |xs| && EntryOf(sim, arxivAuthors, nameOf, run, xs[k], e)
    {
      ResultsIn(sim, arxivAuthors, xs, nameOf, run, e);
    }
  }

  /** One turn adds the entry of its scheme, if any, to those before. */
  lemma ResultStepIn<X>(sim: (string, string) -> real, arxivAuthors: seq<Author>, nameOf: X -> string, run: X -> Option<seq<Author>>,
                        results: seq<ExtResults>, x: X, e: ExtResults)
    requires ResultStep(sim, arxivAuthors, nameOf, run)(results, x).Some?
    ensures e in ResultStep(sim, arxivAuthors, nameOf, run)(results, x).value <==>
      e in results || EntryOf(sim, arxivAuthors, nameOf, run, x, e)
  {
  }

  lemma ResultsIn<X>(sim: (string, string) -> real, arxivAuthors: seq<Author>, xs: seq<X>, nameOf: X -> string, run: X -> Option<seq<Author>>, e: ExtResults)
    requires ScoreAll(sim, arxivAuthors, xs, nameOf, run).Some?
    ensures e in ScoreAll(sim, arxivAuthors, xs, nameOf, run).value <==>
      exists k :: 0 <= k < |xs| && EntryOf(sim, arxivAuthors, nameOf, run, xs[k], e)
  {
    var step := ResultStep(sim, arxivAuthors, nameOf, run);
    forall results, x | step(results, x).Some?
      ensures e in step(results, x).value <==> e in results || EntryOf(sim, arxivAuthors, nameOf, run, x, e)
    {
      ResultStepIn(sim, arxivAuthors, nameOf, run, results, x, e);
    }
    Scheme.FoldOptHas(step, [], xs, (results: seq<ExtResults>) => e in results, x => EntryOf(sim, arxivAuthors, nameOf, run, x, e));
  }

  // ----------------------------------------------------------------------
  // _single_cmd_ext, _build_wrapped_single_command and _multi_cmd_ext
  // ----------------------------------------------------------------------

  /** The scheme's name. */
  function SingleName(s: SingleScheme): string { s.name }

  function MultiName(s: MultiScheme): string { s.name }

  function SingleAccepts(cmdName: string, cmdContent: string): SingleScheme -> Option<bool> {
    (s: SingleScheme) => s.validate(cmdName, cmdContent)
  }

  function SingleRun(cmdName: string, cmdContent: string): SingleScheme -> Option<seq<Author>> {
    (s: SingleScheme) => s.extract(cmdName, cmdContent)
  }

  function MultiAccepts(cmds: seq<string>): MultiScheme -> Option<bool> {
    (s: MultiScheme) => s.validate(cmds)
  }

  function MultiRun(cmds: seq<string>): MultiScheme -> Option<seq<Author>> {
    (s: MultiScheme) => s.extract(cmds)
  }

  /** Validate every scheme, then run and score the accepting ones; `None` when any of it raises. */
  function RunSchemes<X>(sim: (string, string) -> real, arxivAuthors: seq<Author>, schemes: seq<X>,
                         accepts: X -> Option<bool>, nameOf: X -> string, run: X -> Option<seq<Author>>): Option<seq<ExtResults>>
  {
    match ValidSchemes(schemes, accepts)
    case None => None
    case Some(valid) => ScoreAll(sim, arxivAuthors, valid, nameOf, run)
  }

  /**
    * What makes the scheme dispatch raise: a validator of the catalogue
    * raises, or a scheme that accepts cannot be run.
    */
  predicate SchemesRaise<X>(arxivAuthors: seq<Author>, schemes: seq<X>, accepts: X -> Option<bool>, run: X -> Option<seq<Author>>) {
    (exists k :: 0 <= k < |schemes| && accepts(schemes[k]).None?) ||
    (exists k :: 0 <= k < |schemes| && accepts(schemes[k]) == Some(true) && RunRaises(arxivAuthors, run, schemes[k]))
  }

  /**
    * The dispatch raises exactly when a validator raises, or an accepting
    * scheme's extractor raises, or an accepting scheme extracts authors
    * while arXiv lists none: nothing is caught on the way.
    */
  lemma RunSchemesRaises<X>(sim: (string, string) -> real, arxivAuthors: seq<Author>, schemes: seq<X>,
                            accepts: X -> Option<bool>, nameOf: X -> string, run: X -> Option<seq<Author>>)
    ensures RunSchemes(sim, arxivAuthors, schemes, accepts, nameOf, run).None? <==> SchemesRaise(arxivAuthors, schemes, accepts, run)
  {
    var v := ValidSchemes(schemes, accepts);
    if v.Some? {
      var valid := v.value;
      ScoreAllResults(sim, arxivAuthors, valid, nameOf, run);
      if exists k :: 0 <= k < |valid| && RunRaises(arxivAuthors, run, valid[k]) {
        var k :| 0 <= k < |valid| && RunRaises(arxivAuthors, run, valid[k]);
        Scheme.FilterIn(schemes, Accepted(accepts), valid[k]);
        var j :| 0 <= j < |schemes| && schemes[j] == valid[k];
        assert accepts(schemes[j]) == Some(true) && RunRaises(arxivAuthors, run, schemes[j]);
      }
      if exists j :: 0 <= j < |schemes| && accepts(schemes[j]) == Some(true) && RunRaises(arxivAuthors, run, schemes[j]) {
        var j :| 0 <= j < |schemes| && accepts(schemes[j]) == Some(true) && RunRaises(arxivAuthors, run, schemes[j]);
        Scheme.FilterIn(schemes, Accepted(accepts), schemes[j]);
        var k :| 0 <= k < |valid| && valid[k] == schemes[j];
      }
    }
  }

  /**
    * `_single_cmd_ext`: the lower-cased name and the content of the first
    * command; no results when either is empty, else the results of the
    * schemes that accept them. `getContent` is `cmd_util.get_cmd_content`.
    */
  function SingleCmdExt(sim: (string, string) -> real, schemes: seq<SingleScheme>, getContent: string -> string,
                        ext: ExtCmdData, arxivAuthors: seq<Author>): Option<seq<ExtResults>>
    requires |ext.cmds| > 0
  {
    var cmd := ext.cmds[0].sanitized;
    var cmdName := Lower(CmdUtil.GetCmdName(cmd));
    var cmdContent := getContent(cmd);
    if cmdName == "" || cmdContent == "" then Some([])
    else RunSchemes(sim, arxivAuthors, schemes, SingleAccepts(cmdName, cmdContent), SingleName, SingleRun(cmdName, cmdContent))
  }

  /** `_single_cmd_ext`. */
  method SingleCmdExtract(sim: (string, string) -> real, schemes: seq<SingleScheme>, getContent: string -> string,
                          ext: ExtCmdData, arxivAuthors: seq<Author>)
    returns (r: Option<seq<ExtResults>>)
    requires |ext.cmds| > 0
    ensures r == SingleCmdExt(sim, schemes, getContent, ext, arxivAuthors)
  {
    var cmd := ext.cmds[0].sanitized;
    var cmdName := Lower(CmdUtil.GetCmdName(cmd));
    var cmdContent := getContent(cmd);
    if cmdName == "" || cmdContent == "" {
      return Some([]);
    }
    var validSchemes := IdentifyValidSchemes(schemes, SingleAccepts(cmdName, cmdContent));
    if validSchemes.None? {
      return None;
    }
    r := ScoreEach(sim, arxivAuthors, validSchemes.value, SingleName, SingleRun(cmdName, cmdContent));
  }

  /**
    * A single command gives no results when its name or content is empty;
    * otherwise it raises exactly as the dispatch over the catalogue does,
    * and each result comes from a scheme of the catalogue that accepts the
    * name and content and extracts a non-empty author list from them.
    */
  lemma SingleCmdResults(sim: (string, string) -> real, schemes: seq<SingleScheme>, getContent: string -> string,
                         ext: ExtCmdData, arxivAuthors: seq<Author>, e: ExtResults)
    requires |ext.cmds| > 0
    ensures var cmd := ext.cmds[0].sanitized;
      var cmdName := Lower(CmdUtil.GetCmdName(cmd));
      var cmdContent := getContent(cmd);
      var r := SingleCmdExt(sim, schemes, getContent, ext, arxivAuthors);
      (cmdName == "" || cmdContent == "" ==> r == Some([])) &&
      (cmdName != "" && cmdContent != "" ==>
        (r.None? <==> SchemesRaise(arxivAuthors, schemes, SingleAccepts(cmdName, cmdContent), SingleRun(cmdName, cmdContent)))) &&
      (r.Some? && e in r.value ==>
        exists s :: s in schemes && s.validate(cmdName, cmdContent) == Some(true) &&
          EntryOf(sim, arxivAuthors, SingleName, SingleRun(cmdName, cmdContent), s, e))
  {
    var cmd := ext.cmds[0].sanitized;
    var cmdName := Lower(CmdUtil.GetCmdName(cmd));
    var cmdContent := getContent(cmd);
    var r := SingleCmdExt(sim, schemes, getContent, ext, arxivAuthors);
    if cmdName != "" && cmdContent != "" {
      RunSchemesRaises(sim, arxivAuthors, schemes, SingleAccepts(cmdName, cmdContent), SingleName, SingleRun(cmdName, cmdContent));
      if r.Some? && e in r.value {
        var valid := ValidSchemes(schemes, SingleAccepts(cmdName, cmdContent)).value;
        ScoreAllResults(sim, arxivAuthors, valid, SingleName, SingleRun(cmdName, cmdContent));
        var k :| 0 <= k < |valid| && EntryOf(sim, arxivAuthors, SingleName, SingleRun(cmdName, cmdContent), valid[k], e);
        Scheme.FilterIn(schemes, Accepted(SingleAccepts(cmdName, cmdContent)), valid[k]);
      }
    }
  }

  /** The text `_build_wrapped_single_command` records as the wrapped command's original. */
  const WrappedOriginal: string := "Wrapped Multiple Commands as one"

  function SanitizedOf(c: LatexCmd): string { c.sanitized }

  /**
    * `_build_wrapped_single_command`: one `\author{…}` command around the
    * space-joined sanitized commands, with the same document classes.
    */
  function BuildWrappedSingleCommand(ext: ExtCmdData): (r: ExtCmdData)
    ensures r.documentclasses == ext.documentclasses && |r.cmds| == 1
    ensures r.cmds[0].original == WrappedOriginal
    ensures r.cmds[0].sanitized == "\\author{" + Join(Scheme.Map(ext.cmds, SanitizedOf), " ") + "}"
  {
    var cmdStr := Join(Scheme.Map(ext.cmds, SanitizedOf), " ");
    ExtCmdData(ext.documentclasses, [LatexCmd(WrappedOriginal, "\\author{" + cmdStr + "}")])
  }

  /** The wrapped command is always read as an `author` command. */
  lemma WrappedIsAuthor(ext: ExtCmdData)
    ensures Lower(CmdUtil.GetCmdName(BuildWrappedSingleCommand(ext).cmds[0].sanitized)) == "author"
  {
    var body := Join(Scheme.Map(ext.cmds, SanitizedOf), " ");
    assert BuildWrappedSingleCommand(ext).cmds[0].sanitized == "\\author{" + body + "}";
    AuthorCmdName(body);
    LowerAuthor();
  }

  lemma LowerAuthor()
    ensures Lower("author") == "author"
  {
    var s := "author";
    forall i | 0 <= i < |s| ensures LowerChar(s[i]) == s[i] {
      assert !IsUpperChar(s[i]);
    }
  }

  /** `\author{…}` is named `author`, whatever its argument. */
  lemma AuthorCmdName(body: string)
    ensures CmdUtil.GetCmdName("\\author{" + body + "}") == "author"
  {
    var cmd := "\\author{" + body + "}";
    AuthorCmdBraces(body);
    assert Slice(cmd, 1, 7) == cmd[1..7] == "author";
    StripCharsNothing("author", {'*', ' '});
  }

  /** In `\author{…}` the first `{` is at 7 and no `[` comes before it. */
  lemma AuthorCmdBraces(body: string)
    ensures var cmd := "\\author{" + body + "}";
      var b := Find(cmd, "[");
      Find(cmd, "{") == 7 && (b == -1 || b > 7)
  {
    var cmd := "\\author{" + body + "}";
    assert cmd[..8] == "\\author{";
    forall k | 0 <= k < 8
      ensures OccursAt(cmd, "{", k) <==> k == 7
      ensures !OccursAt(cmd, "[", k)
    {
      assert cmd[k..k + 1] == [cmd[k]];
    }
    assert OccursAt(cmd, "{", 7);
    assert Contains(cmd, "{");
    var f := Find(cmd, "{");
    assert f != -1 && OccursAt(cmd, "{", f);
    assert !(f < 7);
    assert !(f > 7);
    var b := Find(cmd, "[");
    assert b != -1 ==> OccursAt(cmd, "[", b) && !(b <= 7);
  }

  /**
    * `_multi_cmd_ext`: with no accepting multi-command scheme the commands
    * are wrapped into one `\author{…}` and run as a single command
    * (`wrapped_multi`); otherwise the results of the accepting schemes
    * (`multi`). A validator that raises ends it before any type is chosen;
    * the `multi` recorded then is never read.
    */
  function MultiCmdExt(sim: (string, string) -> real, multiSchemes: seq<MultiScheme>, singleSchemes: seq<SingleScheme>,
                       getContent: string -> string, ext: ExtCmdData, arxivAuthors: seq<Author>): (string, Option<seq<ExtResults>>)
  {
    var cmds := Scheme.Map(ext.cmds, SanitizedOf);
    match ValidSchemes(multiSchemes, MultiAccepts(cmds))
    case None => ("multi", None)
    case Some(valid) =>
      if valid == [] then
        ("wrapped_multi", SingleCmdExt(sim, singleSchemes, getContent, BuildWrappedSingleCommand(ext), arxivAuthors))
      else ("multi", ScoreAll(sim, arxivAuthors, valid, MultiName, MultiRun(cmds)))
  }

  /** `_multi_cmd_ext`. */
  method MultiCmdExtract(sim: (string, string) -> real, multiSchemes: seq<MultiScheme>, singleSchemes: seq<SingleScheme>,
                         getContent: string -> string, ext: ExtCmdData, arxivAuthors: seq<Author>)
    returns (extType: string, r: Option<seq<ExtResults>>)
    ensures (extType, r) == MultiCmdExt(sim, multiSchemes, singleSchemes, getContent, ext, arxivAuthors)
  {
    var cmds := Scheme.Map(ext.cmds, SanitizedOf);
    var validSchemes := IdentifyValidSchemes(multiSchemes, MultiAccepts(cmds));
    if validSchemes.None? {
      return "multi", None;
    }
    if |validSchemes.value| == 0 {
      var cmd := BuildWrappedSingleCommand(ext);
      r := SingleCmdExtract(sim, singleSchemes, getContent, cmd, arxivAuthors);
      return "wrapped_multi", r;
    }
    r := ScoreEach(sim, arxivAuthors, validSchemes.value, MultiName, MultiRun(cmds));
    return "multi", r;
  }

  /**
    * The multi-command path is `wrapped_multi` exactly when every
    * multi-command validator returns false, and then it is the
    * single-command path on the wrapped `\author{…}` command; in particular
    * an empty multi-command catalogue always wraps. Otherwise it raises
    * exactly as the dispatch over the multi-command catalogue does.
    */
  lemma MultiCmdWraps(sim: (string, string) -> real, multiSchemes: seq<MultiScheme>, singleSchemes: seq<SingleScheme>,
                      getContent: string -> string, ext: ExtCmdData, arxivAuthors: seq<Author>)
    ensures var cmds := Scheme.Map(ext.cmds, SanitizedOf);
      var (extType, r) := MultiCmdExt(sim, multiSchemes, singleSchemes, getContent, ext, arxivAuthors);
      (extType == "wrapped_multi" <==> forall s :: s in multiSchemes ==> s.validate(cmds) == Some(false)) &&
      (extType == "wrapped_multi" ==> r == SingleCmdExt(sim, singleSchemes, getContent, BuildWrappedSingleCommand(ext), arxivAuthors)) &&
      (extType != "wrapped_multi" ==> (r.None? <==> SchemesRaise(arxivAuthors, multiSchemes, MultiAccepts(cmds), MultiRun(cmds)))) &&
      (multiSchemes == [] ==> extType == "wrapped_multi")
  {
    var cmds := Scheme.Map(ext.cmds, SanitizedOf);
    var accepts := MultiAccepts(cmds);
    RunSchemesRaises(sim, arxivAuthors, multiSchemes, accepts, MultiName, MultiRun(cmds));
    var v := ValidSchemes(multiSchemes, accepts);
    if v.None? {
      var k :| 0 <= k < |multiSchemes| && accepts(multiSchemes[k]).None?;
      assert multiSchemes[k] in multiSchemes && multiSchemes[k].validate(cmds) != Some(false);
    } else if v.value != [] {
      Scheme.FilterIn(multiSchemes, Accepted(accepts), v.value[0]);
    } else {
      forall s | s in multiSchemes ensures s.validate(cmds) == Some(false) {
        Scheme.FilterIn(multiSchemes, Accepted(accepts), s);
        var k :| 0 <= k < |multiSchemes| && multiSchemes[k] == s;
        assert accepts(s).Some? && !Accepted(accepts)(s);
        assert accepts(s).value == false;
        assert accepts(s) == s.validate(cmds);
      }
    }
  }

  // ----------------------------------------------------------------------
  // _run_single_element
  // ----------------------------------------------------------------------

  /** What `_run_single_element` does for one paper directory. */
  datatype ElementOutcome =
    | Skip                   // returns early, or has no results to write
    | Raise                  // a validator, an extractor or scoring raised
    | Write(info: ExtAuthorInfo)

  /**
    * `_run_single_element` after the file reads: skip without metadata,
    * when the extraction file exists, or without commands; one command runs
    * the single path, more the multi path; results are written only when
    * there are some. The metadata is its author list.
    */
  function RunSingleElement(sim: (string, string) -> real, multiSchemes: seq<MultiScheme>, singleSchemes: seq<SingleScheme>,
                            getContent: string -> string, metadata: Option<seq<Author>>, extractedExists: bool,
                            extCmds: Option<ExtCmdData>): ElementOutcome
  {
    if metadata.None? || extractedExists then Skip
    else if extCmds.None? || |extCmds.value.cmds| == 0 then Skip
    else
      var ext := extCmds.value;
      var (extType, results) :=
        if |ext.cmds| == 1 then ("single", SingleCmdExt(sim, singleSchemes, getContent, ext, metadata.value))
        else MultiCmdExt(sim, multiSchemes, singleSchemes, getContent, ext, metadata.value);
      match results
      case None => Raise
      case Some(rs) => if rs == [] then Skip else Write(ExtAuthorInfo(extType, rs))
  }

  /**
    * A paper is written only with metadata, no earlier extraction file and
    * at least one command; what is written is non-empty and typed `single`
    * exactly when there was one command.
    */
  lemma RunSingleElementWrites(sim: (string, string) -> real, multiSchemes: seq<MultiScheme>, singleSchemes: seq<SingleScheme>,
                               getContent: string -> string, metadata: Option<seq<Author>>, extractedExists: bool,
                               extCmds: Option<ExtCmdData>)
    ensures var o := RunSingleElement(sim, multiSchemes, singleSchemes, getContent, metadata, extractedExists, extCmds);
      o.Write? ==>
        metadata.Some? && !extractedExists && extCmds.Some? && |extCmds.value.cmds| > 0 &&
        o.info.extractions != [] &&
        (o.info.extType == "single" <==> |extCmds.value.cmds| == 1) &&
        o.info.extType in {"single", "multi", "wrapped_multi"}
  {
    if metadata.Some? && !extractedExists && extCmds.Some? && |extCmds.value.cmds| > 1 {
      MultiCmdWraps(sim, multiSchemes, singleSchemes, getContent, extCmds.value, metadata.value);
    }
  }

  /**
    * An element is abandoned unwritten only past the guards, and exactly
    * when its path raises. One command with a name and a content raises
    * when a single-command validator raises or an accepting scheme cannot
    * be run (its extractor raises, or it finds authors arXiv does not
    * list); one without either never raises.
    */
  lemma RunSingleElementRaises(sim: (string, string) -> real, multiSchemes: seq<MultiScheme>, singleSchemes: seq<SingleScheme>,
                               getContent: string -> string, metadata: Option<seq<Author>>, extractedExists: bool,
                               extCmds: Option<ExtCmdData>)
    ensures var o := RunSingleElement(sim, multiSchemes, singleSchemes, getContent, metadata, extractedExists, extCmds);
      var guarded := metadata.Some? && !extractedExists && extCmds.Some?;
      (o.Raise? ==> guarded && |extCmds.value.cmds| > 0) &&
      (guarded && |extCmds.value.cmds| == 1 ==>
        var cmd := extCmds.value.cmds[0].sanitized;
        var cmdName := Lower(CmdUtil.GetCmdName(cmd));
        var cmdContent := getContent(cmd);
        (o.Raise? <==>
          (cmdName != "" && cmdContent != "" &&
           SchemesRaise(metadata.value, singleSchemes, SingleAccepts(cmdName, cmdContent), SingleRun(cmdName, cmdContent)))))
  {
    if metadata.Some? && !extractedExists && extCmds.Some? && |extCmds.value.cmds| == 1 {
      SingleCmdResults(sim, singleSchemes, getContent, extCmds.value, metadata.value, ExtResults("", [], 0.0));
    }
  }

  /**
    * Several commands raise over the multi-command catalogue, in the same
    * way, when some multi-command validator does not return false, and
    * otherwise over the single-command catalogue on the wrapped
    * `\author{…}` command.
    */
  lemma RunMultiElementRaises(sim: (string, string) -> real, multiSchemes: seq<MultiScheme>, singleSchemes: seq<SingleScheme>,
                              getContent: string -> string, arxivAuthors: seq<Author>, ext: ExtCmdData)
    requires |ext.cmds| > 1
    ensures var o := RunSingleElement(sim, multiSchemes, singleSchemes, getContent, Some(arxivAuthors), false, Some(ext));
      var cmds := Scheme.Map(ext.cmds, SanitizedOf);
      ((exists s :: s in multiSchemes && s.validate(cmds) != Some(false)) ==>
        (o.Raise? <==> SchemesRaise(arxivAuthors, multiSchemes, MultiAccepts(cmds), MultiRun(cmds)))) &&
      ((forall s :: s in multiSchemes ==> s.validate(cmds) == Some(false)) ==>
        var content := getContent(BuildWrappedSingleCommand(ext).cmds[0].sanitized);
        (o.Raise? <==>
          (content != "" && SchemesRaise(arxivAuthors, singleSchemes, SingleAccepts("author", content), SingleRun("author", content)))))
  {
    var o := RunSingleElement(sim, multiSchemes, singleSchemes, getContent, Some(arxivAuthors), false, Some(ext));
    var (extType, r) := MultiCmdExt(sim, multiSchemes, singleSchemes, getContent, ext, arxivAuthors);
    assert o.Raise? <==> r.None?;
    MultiCmdWraps(sim, multiSchemes, singleSchemes, getContent, ext, arxivAuthors);
    var wrapped := BuildWrappedSingleCommand(ext);
    WrappedIsAuthor(ext);
    SingleCmdResults(sim, singleSchemes, getContent, wrapped, arxivAuthors, ExtResults("", [], 0.0));
  }
}
