/**
  * What the single-command extraction schemes share: the lower-cased
  * substring tests their validators are made of, the line splitting their
  * extractors start from, and the two ways they emit authors — one author
  * per name sharing one affiliation, or a list built match by match.
  *
  * Every extractor takes `san`, the `sanitize` of the command utilities
  * (`CmdUtil.SanitizeWith(P)`), as a function value: the catalogue passes
  * it, and no proof about an extractor needs to look inside it. Where a
  * proof walks through many lines, the extractor likewise takes `split`,
  * the `split_on_separator` of the command utilities
  * (`RegExp.SplitOnSeparator`).
  */
module Scheme {
  import opened PyStr
  import opened Regex
  import opened Patterns
  import opened Authors
  import CmdUtil

  /** `lit in cmd_content.lower()`. */
  predicate Has(content: string, lit: string) {
    Contains(Lower(content), lit)
  }

  /** `cmd_content.count("$^") + cmd_content.count("${}^")` on the lower-cased content. */
  function MathRefs(content: string): nat {
    Count(Lower(content), "$^") + Count(Lower(content), "${}^")
  }

  /** `[s for part in text.split(sep) if len(s := part.strip()) > 0]`. */
  function Lines(text: string, sep: string): (r: seq<string>)
    requires |sep| > 0
    ensures forall p :: p in r ==> p != "" && Trimmed(p)
  {
    NonEmptyStripped(Split(text, sep))
  }

  /** `text.replace(t, "")`, which leaves the text as it is when `t` is empty. */
  function Delete(text: string, t: string): string {
    if t == "" then text else Replace(text, t, "")
  }

  /** `cmd_content[1:-1]`: the content without its enclosing braces. */
  function Unbraced(content: string): string {
    Slice(content, 1, -1)
  }

  /** Every author carries exactly one affiliation. */
  predicate OneAffiliationEach(r: seq<Author>) {
    forall k :: 0 <= k < |r| ==> |r[k].affiliations| == 1
  }

  /** `[Author(sanitize(name), [aff]) for name in names]`. */
  function Shared(san: string -> string, names: seq<string>, aff: string): (r: seq<Author>)
    ensures |r| == |names| && OneAffiliationEach(r)
    decreases |names|
  {
    if names == [] then []
    else Shared(san, names[..|names| - 1], aff) + [Author(san(names[|names| - 1]), [aff])]
  }

  /** The loop `for name in names: author_aff.append(Author(sanitize(name), [aff]))`. */
  method AppendShared(san: string -> string, authorAff: seq<Author>, names: seq<string>, aff: string)
    returns (r: seq<Author>)
    ensures r == authorAff + Shared(san, names, aff)
  {
    r := authorAff;
    var i := 0;
    while i < |names|
      invariant 0 <= i <= |names|
      invariant r == authorAff + Shared(san, names[..i], aff)
    {
      SharedStep(san, names, aff, i);
      r := r + [Author(san(names[i]), [aff])];
      i := i + 1;
    }
    assert names[..|names|] == names;
  }


  lemma {:induction false} SharedAt(san: string -> string, names: seq<string>, aff: string)
    ensures forall k :: 0 <= k < |names| ==> Shared(san, names, aff)[k] == Author(san(names[k]), [aff])
    decreases |names|
  {
    if names != [] {
      var n := |names| - 1;
      SharedAt(san, names[..n], aff);
    }
  }

  /** An author is among those sharing `aff` iff it is one of the names with `aff`. */
  lemma SharedIn(san: string -> string, names: seq<string>, aff: string, a: Author)
    ensures a in Shared(san, names, aff) <==> exists j :: 0 <= j < |names| && a == Author(san(names[j]), [aff])
  {
    SharedAt(san, names, aff);
    if a in Shared(san, names, aff) {
      var j :| 0 <= j < |Shared(san, names, aff)| && Shared(san, names, aff)[j] == a;
      assert a == Author(san(names[j]), [aff]);
    }
    if exists j :: 0 <= j < |names| && a == Author(san(names[j]), [aff]) {
      var j :| 0 <= j < |names| && a == Author(san(names[j]), [aff]);
      assert Shared(san, names, aff)[j] == a;
    }
  }

  lemma SharedStep(san: string -> string, names: seq<string>, aff: string, i: nat)
    requires i < |names|
    ensures Shared(san, names[..i + 1], aff) == Shared(san, names[..i], aff) + [Author(san(names[i]), [aff])]
  {
    assert names[..i + 1][..i] == names[..i];
  }

  /** Sharing an affiliation name by name is sharing it list by list. */
  lemma {:induction false} SharedAppend(san: string -> string, a: seq<string>, b: seq<string>, aff: string)
    ensures Shared(san, a + b, aff) == Shared(san, a, aff) + Shared(san, b, aff)
    decreases |b|
  {
    if b == [] {
      assert a + b == a;
    } else {
      var n := |b| - 1;
      SharedAppend(san, a, b[..n], aff);
      assert (a + b)[..|a + b| - 1] == a + b[..n];
    }
  }

  /**
    * The nested loops `for part in parts: for name in split(part):
    * author_aff.append(Author(sanitize(name), [aff]))`.
    */
  method SharedParts(san: string -> string, split: string -> seq<string>, parts: seq<string>, aff: string)
    returns (r: seq<Author>)
    ensures r == Shared(san, FlatMap(parts, split), aff)
  {
    r := [];
    var i := 0;
    while i < |parts|
      invariant 0 <= i <= |parts|
      invariant r == Shared(san, FlatMap(parts[..i], split), aff)
    {
      FlatMapStep(parts, split, i);
      SharedAppend(san, FlatMap(parts[..i], split), split(parts[i]), aff);
      r := AppendShared(san, r, split(parts[i]), aff);
      i := i + 1;
    }
    assert parts[..|parts|] == parts;
  }

  /** Each element gives the names `names(x)`, all sharing the affiliation `aff(x)`. */
  function SharedOf<X>(san: string -> string, names: X -> seq<string>, aff: X -> string): X -> seq<Author> {
    (x: X) => Shared(san, names(x), aff(x))
  }

  /**
    * The loop `for m in matches: for name in names(m):
    * author_aff.append(Author(sanitize(name), [aff(m)]))`.
    */
  method SharedEach<X>(san: string -> string, names: X -> seq<string>, aff: X -> string, xs: seq<X>)
    returns (r: seq<Author>)
    ensures r == FlatMap(xs, SharedOf(san, names, aff))
  {
    r := [];
    var i := 0;
    while i < |xs|
      invariant 0 <= i <= |xs|
      invariant r == FlatMap(xs[..i], SharedOf(san, names, aff))
    {
      FlatMapStep(xs, SharedOf(san, names, aff), i);
      r := AppendShared(san, r, names(xs[i]), aff(xs[i]));
      i := i + 1;
    }
    assert xs[..|xs|] == xs;
  }

  /**
    * What the loop above gives: authors with one affiliation each, each one
    * name of one element carrying that element's affiliation, and every such
    * name giving one.
    */
  lemma SharedEachIn<X>(san: string -> string, names: X -> seq<string>, aff: X -> string, xs: seq<X>, a: Author)
    ensures OneAffiliationEach(FlatMap(xs, SharedOf(san, names, aff)))
    ensures a in FlatMap(xs, SharedOf(san, names, aff)) <==>
      exists k, j :: 0 <= k < |xs| && 0 <= j < |names(xs[k])| && a == Author(san(names(xs[k])[j]), [aff(xs[k])])
  {
    var f := SharedOf(san, names, aff);
    FlatMapOneAffiliationEach(xs, f);
    FlatMapIn(xs, f, a);
    forall k | 0 <= k < |xs|
      ensures a in f(xs[k]) <==> exists j :: 0 <= j < |names(xs[k])| && a == Author(san(names(xs[k])[j]), [aff(xs[k])])
    {
      SharedIn(san, names(xs[k]), aff(xs[k]), a);
    }
  }

  lemma OneAffiliationEachAppend(a: seq<Author>, b: seq<Author>)
    requires OneAffiliationEach(a) && OneAffiliationEach(b)
    ensures OneAffiliationEach(a + b)
  {
    assert forall k :: |a| <= k < |a| + |b| ==> (a + b)[k] == b[k - |a|];
  }

  /** `[sanitize(x) for x in xs]`. */
  function SanEach(san: string -> string, xs: seq<string>): (r: seq<string>)
    ensures |r| == |xs|
    decreases |xs|
  {
    if xs == [] then [] else SanEach(san, xs[..|xs| - 1]) + [san(xs[|xs| - 1])]
  }

  /** `[Author(name, affs) for name in names]`: every name shares the one list. */
  function Group(names: seq<string>, affs: seq<string>): (r: seq<Author>)
    ensures |r| == |names|
    decreases |names|
  {
    if names == [] then [] else Group(names[..|names| - 1], affs) + [Author(names[|names| - 1], affs)]
  }

  lemma {:induction false} GroupEntries(names: seq<string>, affs: seq<string>)
    ensures forall k :: 0 <= k < |names| ==> Group(names, affs)[k] == Author(names[k], affs)
    decreases |names|
  {
    if names != [] {
      GroupEntries(names[..|names| - 1], affs);
    }
  }

  /** The loop `for name in names: author_affs.append(Author(name, affs))`. */
  method AppendGroup(authorAffs: seq<Author>, names: seq<string>, affs: seq<string>) returns (r: seq<Author>)
    ensures r == authorAffs + Group(names, affs)
  {
    r := authorAffs;
    var i := 0;
    while i < |names|
      invariant 0 <= i <= |names|
      invariant r == authorAffs + Group(names[..i], affs)
    {
      assert names[..i + 1][..i] == names[..i];
      r := r + [Author(names[i], affs)];
      i := i + 1;
    }
    assert names[..|names|] == names;
  }

  /**
    * The list a loop builds when it appends `f(x)` for each `x` in turn:
    * `f` gives the one entry of an element, or nothing for an element the
    * loop skips.
    */
  function FlatMap<A, B>(xs: seq<A>, f: A -> seq<B>): seq<B>
    decreases |xs|
  {
    if xs == [] then [] else FlatMap(xs[..|xs| - 1], f) + f(xs[|xs| - 1])
  }

  lemma FlatMapStep<A, B>(xs: seq<A>, f: A -> seq<B>, i: nat)
    requires i < |xs|
    ensures FlatMap(xs[..i + 1], f) == FlatMap(xs[..i], f) + f(xs[i])
  {
    assert xs[..i + 1][..i] == xs[..i];
  }

  /** An entry is in the list iff some element contributed it. */
  lemma {:induction false} FlatMapIn<A, B>(xs: seq<A>, f: A -> seq<B>, y: B)
    ensures y in FlatMap(xs, f) <==> exists k :: 0 <= k < |xs| && y in f(xs[k])
    decreases |xs|
  {
    if xs != [] {
      var n := |xs| - 1;
      FlatMapIn(xs[..n], f, y);
      if y in f(xs[n]) {
      } else if exists k :: 0 <= k < |xs| && y in f(xs[k]) {
        var k :| 0 <= k < |xs| && y in f(xs[k]);
        assert k < n && xs[..n][k] == xs[k];
      }
      if exists k :: 0 <= k < n && y in f(xs[..n][k]) {
        var k :| 0 <= k < n && y in f(xs[..n][k]);
        assert xs[..n][k] == xs[k];
      }
    }
  }

  /** Elements that each contribute exactly one entry give as many entries as elements. */
  lemma {:induction false} FlatMapOneEach<A, B>(xs: seq<A>, f: A -> seq<B>)
    requires forall k :: 0 <= k < |xs| ==> |f(xs[k])| == 1
    ensures |FlatMap(xs, f)| == |xs|
    decreases |xs|
  {
    if xs != [] {
      var n := |xs| - 1;
      assert forall k :: 0 <= k < n ==> xs[..n][k] == xs[k];
      FlatMapOneEach(xs[..n], f);
    }
  }

  /** The list a loop builds when it appends `f(x)` for each `x` in turn. */
  function Map<A, B>(xs: seq<A>, f: A -> B): (r: seq<B>)
    ensures |r| == |xs|
    decreases |xs|
  {
    if xs == [] then [] else Map(xs[..|xs| - 1], f) + [f(xs[|xs| - 1])]
  }

  lemma MapStep<A, B>(xs: seq<A>, f: A -> B, i: nat)
    requires i < |xs|
    ensures Map(xs[..i + 1], f) == Map(xs[..i], f) + [f(xs[i])]
  {
    assert xs[..i + 1][..i] == xs[..i];
  }

  lemma MapAppend<A, B>(xs: seq<A>, x: A, f: A -> B)
    ensures Map(xs + [x], f) == Map(xs, f) + [f(x)]
  {
    assert (xs + [x])[..|xs|] == xs;
  }

  /** Entry `k` is what element `k` gives. */
  lemma {:induction false} MapAt<A, B>(xs: seq<A>, f: A -> B)
    ensures forall k :: 0 <= k < |xs| ==> Map(xs, f)[k] == f(xs[k])
    decreases |xs|
  {
    if xs != [] {
      var n := |xs| - 1;
      MapAt(xs[..n], f);
      assert forall k :: 0 <= k < n ==> xs[..n][k] == xs[k];
    }
  }

  /** A value is in the list iff some element gives it. */
  lemma MapIn<A, B>(xs: seq<A>, f: A -> B, y: B)
    ensures y in Map(xs, f) <==> exists j :: 0 <= j < |xs| && y == f(xs[j])
  {
    MapAt(xs, f);
    if y in Map(xs, f) {
      var j :| 0 <= j < |xs| && Map(xs, f)[j] == y;
    }
  }

  /** The list a loop builds when it appends each `x` that `accepts`, in order. */
  function Filter<X>(xs: seq<X>, accepts: X -> bool): (r: seq<X>)
    ensures |r| <= |xs|
    decreases |xs|
  {
    if xs == [] then []
    else Filter(xs[..|xs| - 1], accepts) + (if accepts(xs[|xs| - 1]) then [xs[|xs| - 1]] else [])
  }

  lemma FilterStep<X>(xs: seq<X>, accepts: X -> bool, i: nat)
    requires i < |xs|
    ensures Filter(xs[..i + 1], accepts) == Filter(xs[..i], accepts) + (if accepts(xs[i]) then [xs[i]] else [])
  {
    assert xs[..i + 1][..i] == xs[..i];
  }

  lemma FilterAppend<X>(xs: seq<X>, x: X, accepts: X -> bool)
    ensures Filter(xs + [x], accepts) == Filter(xs, accepts) + (if accepts(x) then [x] else [])
  {
    assert (xs + [x])[..|xs|] == xs;
  }

  /** Exactly the accepted elements are kept. */
  lemma {:induction false} FilterIn<X>(xs: seq<X>, accepts: X -> bool, x: X)
    ensures x in Filter(xs, accepts) <==> x in xs && accepts(x)
    decreases |xs|
  {
    if xs != [] {
      var n := |xs| - 1;
      FilterIn(xs[..n], accepts, x);
      assert xs == xs[..n] + [xs[n]];
    }
  }

  /** Filtering a concatenation filters each part. */
  lemma {:induction false} FilterConcat<X>(xs: seq<X>, ys: seq<X>, accepts: X -> bool)
    ensures Filter(xs + ys, accepts) == Filter(xs, accepts) + Filter(ys, accepts)
    decreases |ys|
  {
    if ys == [] {
      assert xs + ys == xs;
    } else {
      var front := ys[..|ys| - 1];
      var y := ys[|ys| - 1];
      assert xs + ys == (xs + front) + [y];
      assert ys == front + [y];
      FilterConcat(xs, front, accepts);
      FilterAppend(xs + front, y, accepts);
      FilterAppend(front, y, accepts);
    }
  }

  /** A list whose every element is accepted is kept whole; one with none accepted is dropped. */
  lemma {:induction false} FilterAllOrNone<X>(xs: seq<X>, accepts: X -> bool)
    ensures (forall k :: 0 <= k < |xs| ==> accepts(xs[k])) ==> Filter(xs, accepts) == xs
    ensures (forall k :: 0 <= k < |xs| ==> !accepts(xs[k])) ==> Filter(xs, accepts) == []
    decreases |xs|
  {
    if xs != [] {
      var n := |xs| - 1;
      FilterAllOrNone(xs[..n], accepts);
      assert xs == xs[..n] + [xs[n]];
    }
  }

  /** `text` with every text in `ts` deleted in turn, as a loop of `text = text.replace(t, "")` does. */
  function DeleteAll(text: string, ts: seq<string>): string
    decreases |ts|
  {
    if ts == [] then text else Delete(DeleteAll(text, ts[..|ts| - 1]), ts[|ts| - 1])
  }

  lemma DeleteAllStep(text: string, ts: seq<string>, i: nat)
    requires i < |ts|
    ensures DeleteAll(text, ts[..i + 1]) == Delete(DeleteAll(text, ts[..i]), ts[i])
  {
    assert ts[..i + 1][..i] == ts[..i];
  }

  /** The text of each match, as `m.group(0)`. */
  function TextOf(c: string): Match -> string {
    (m: Match) => Text(c, m)
  }

  /** One round of a loop that deletes the text of each match it visits. */
  lemma RemovedStep(c: string, ms: seq<Match>, i: nat)
    requires i < |ms|
    ensures DeleteAll(c, Map(ms[..i + 1], TextOf(c))) == Delete(DeleteAll(c, Map(ms[..i], TextOf(c))), Text(c, ms[i]))
  {
    MapStep(ms, TextOf(c), i);
    DeleteAllStep(c, Map(ms[..i + 1], TextOf(c)), i);
    assert Map(ms[..i + 1], TextOf(c))[..i] == Map(ms[..i], TextOf(c));
  }

  /** The characters `strip("$^{} ")` removes from a math-mode reference. */
  const MathTrim: set<char> := {'$', '^', '{', '}', ' '}

  /** `{"name": m.group("name"), "ref_id": split_ref_strings(m.group("ref_id").strip("$^{} "))}` for a `MATH_AUTHOR_REF` match. */
  function MathRefAuthor(m: Match): CmdUtil.RefAuthor {
    CmdUtil.RefAuthor(m.g1, CmdUtil.SplitRefStrings(StripChars(m.g2, MathTrim)))
  }

  /** The loop over the `MATH_AUTHOR_REF` matches of a text, none of them skipped. */
  method MathRefAuthorsIn(P: Patterns, text: string) returns (authors: seq<CmdUtil.RefAuthor>)
    ensures authors == Map(FindIter(P.mathAuthorRef, text), MathRefAuthor)
  {
    var ms := FindIter(P.mathAuthorRef, text);
    authors := [];
    var i := 0;
    while i < |ms|
      invariant 0 <= i <= |ms|
      invariant authors == Map(ms[..i], MathRefAuthor)
    {
      MapStep(ms, MathRefAuthor, i);
      authors := authors + [CmdUtil.RefAuthor(ms[i].g1, CmdUtil.SplitRefStrings(StripChars(ms[i].g2, MathTrim)))];
      i := i + 1;
    }
    assert ms[..|ms|] == ms;
  }

  /**
    * A loop that feeds each element to `step` in turn and stops at the first
    * element `step` refuses (`None`: the loop raises).
    */
  function FoldOpt<S, X>(step: (S, X) -> Option<S>, init: S, xs: seq<X>): Option<S>
    decreases |xs|
  {
    if xs == [] then Some(init)
    else
      match FoldOpt(step, init, xs[..|xs| - 1])
      case None => None
      case Some(s) => step(s, xs[|xs| - 1])
  }

  lemma FoldOptStep<S, X>(step: (S, X) -> Option<S>, init: S, xs: seq<X>, i: nat)
    requires i < |xs|
    ensures FoldOpt(step, init, xs[..i + 1]) ==
      match FoldOpt(step, init, xs[..i]) case None => None case Some(s) => step(s, xs[i])
  {
    assert xs[..i + 1][..i] == xs[..i];
  }

  /** When `step` refuses exactly the `bad` elements, the loop raises exactly when some element is bad. */
  lemma {:induction false} FoldOptNone<S, X>(step: (S, X) -> Option<S>, init: S, xs: seq<X>, bad: X -> bool)
    requires forall s, x :: step(s, x).None? <==> bad(x)
    ensures FoldOpt(step, init, xs).None? <==> exists k :: 0 <= k < |xs| && bad(xs[k])
    decreases |xs|
  {
    if xs != [] {
      var n := |xs| - 1;
      FoldOptNone(step, init, xs[..n], bad);
      if exists k :: 0 <= k < n && bad(xs[..n][k]) {
        var k :| 0 <= k < n && bad(xs[..n][k]);
        assert xs[..n][k] == xs[k];
      }
      if exists k :: 0 <= k < |xs| && bad(xs[k]) {
        var k :| 0 <= k < |xs| && bad(xs[k]);
        if k < n {
          assert xs[..n][k] == xs[k];
        }
      }
    }
  }

  /**
    * When each turn that does not raise keeps `has` if it held and makes it
    * hold exactly for the `entry` elements, and it does not hold at the
    * start, it holds of the result iff some element is an `entry` one.
    */
  lemma {:induction false} FoldOptHas<S, X>(step: (S, X) -> Option<S>, init: S, xs: seq<X>, has: S -> bool, entry: X -> bool)
    requires !has(init)
    requires forall s, x :: step(s, x).Some? ==> (has(step(s, x).value) <==> has(s) || entry(x))
    requires FoldOpt(step, init, xs).Some?
    ensures has(FoldOpt(step, init, xs).value) <==> exists k :: 0 <= k < |xs| && entry(xs[k])
    decreases |xs|
  {
    if xs != [] {
      var n := |xs| - 1;
      var prev := FoldOpt(step, init, xs[..n]);
      assert prev.Some?;
      FoldOptHas(step, init, xs[..n], has, entry);
      assert FoldOpt(step, init, xs) == step(prev.value, xs[n]);
      if exists k :: 0 <= k < n && entry(xs[..n][k]) {
        var k :| 0 <= k < n && entry(xs[..n][k]);
        assert xs[..n][k] == xs[k];
      }
      if exists k :: 0 <= k < |xs| && entry(xs[k]) {
        var k :| 0 <= k < |xs| && entry(xs[k]);
        if k < n {
          assert xs[..n][k] == xs[k];
        }
      }
    }
  }

  /** Once the loop has raised on a prefix it raises on the whole list. */
  /** A fold that raises on a prefix raises on any extension of it. */
  lemma FoldOptNonePrefix<S, X>(step: (S, X) -> Option<S>, init: S, a: seq<X>, b: seq<X>)
    requires FoldOpt(step, init, a).None?
    ensures FoldOpt(step, init, a + b).None?
  {
    assert (a + b)[..|a|] == a;
    FoldOptNoneStays(step, init, a + b, |a|);
  }

  /** A fold over the flattened items that raises on the items of the first `k` elements raises on all of them. */
  lemma FlatFoldNone<A, X, S>(xs: seq<A>, f: A -> seq<X>, step: (S, X) -> Option<S>, init: S, k: nat)
    requires k <= |xs| && FoldOpt(step, init, FlatMap(xs[..k], f)).None?
    ensures FoldOpt(step, init, FlatMap(xs, f)).None?
  {
    assert xs[..k] + xs[k..] == xs;
    FlatMapAppend(xs[..k], xs[k..], f);
    FoldOptNonePrefix(step, init, FlatMap(xs[..k], f), FlatMap(xs[k..], f));
  }

  lemma {:induction false} FoldOptNoneStays<S, X>(step: (S, X) -> Option<S>, init: S, xs: seq<X>, i: nat)
    requires i <= |xs| && FoldOpt(step, init, xs[..i]).None?
    ensures FoldOpt(step, init, xs).None?
    decreases |xs| - i
  {
    if i < |xs| {
      FoldOptStep(step, init, xs, i);
      FoldOptNoneStays(step, init, xs, i + 1);
    } else {
      assert xs[..i] == xs;
    }
  }

  /** Feeding two lists in turn is feeding the first, then the second from where the first left off. */
  lemma {:induction false} FoldOptAppend<S, X>(step: (S, X) -> Option<S>, init: S, a: seq<X>, b: seq<X>)
    ensures FoldOpt(step, init, a + b) ==
      match FoldOpt(step, init, a) case None => None case Some(s) => FoldOpt(step, s, b)
    decreases |b|
  {
    if b == [] {
      assert a + b == a;
    } else {
      var n := |b| - 1;
      FoldOptAppend(step, init, a, b[..n]);
      assert (a + b)[..|a + b| - 1] == a + b[..n];
    }
  }

  lemma {:induction false} FlatMapAppend<A, B>(a: seq<A>, b: seq<A>, f: A -> seq<B>)
    ensures FlatMap(a + b, f) == FlatMap(a, f) + FlatMap(b, f)
    decreases |b|
  {
    if b == [] {
      assert a + b == a;
    } else {
      var n := |b| - 1;
      FlatMapAppend(a, b[..n], f);
      assert (a + b)[..|a + b| - 1] == a + b[..n];
    }
  }

  lemma {:induction false} DeleteAllAppend(text: string, a: seq<string>, b: seq<string>)
    ensures DeleteAll(text, a + b) == DeleteAll(DeleteAll(text, a), b)
    decreases |b|
  {
    if b == [] {
      assert a + b == a;
    } else {
      var n := |b| - 1;
      DeleteAllAppend(text, a, b[..n]);
      assert (a + b)[..|a + b| - 1] == a + b[..n];
    }
  }

  /** A loop that updates its state with `step` for each element in turn. */
  function Fold<S, X>(step: (S, X) -> S, init: S, xs: seq<X>): S
    decreases |xs|
  {
    if xs == [] then init else step(Fold(step, init, xs[..|xs| - 1]), xs[|xs| - 1])
  }

  lemma FoldStep<S, X>(step: (S, X) -> S, init: S, xs: seq<X>, i: nat)
    requires i < |xs|
    ensures Fold(step, init, xs[..i + 1]) == step(Fold(step, init, xs[..i]), xs[i])
  {
    assert xs[..i + 1][..i] == xs[..i];
  }

  /** Running over two lists in turn is running over the second from where the first left off. */
  lemma {:induction false} FoldAppend<S, X>(step: (S, X) -> S, init: S, a: seq<X>, b: seq<X>)
    ensures Fold(step, init, a + b) == Fold(step, Fold(step, init, a), b)
    decreases |b|
  {
    if b == [] {
      assert a + b == a;
    } else {
      var n := |b| - 1;
      FoldAppend(step, init, a, b[..n]);
      assert (a + b)[..|a + b| - 1] == a + b[..n];
    }
  }

  /** A property every step keeps holds of the loop's final state. */
  lemma {:induction false} FoldKeeps<S, X>(step: (S, X) -> S, init: S, xs: seq<X>, inv: S -> bool)
    requires inv(init)
    requires forall s, x :: inv(s) ==> inv(step(s, x))
    ensures inv(Fold(step, init, xs))
    decreases |xs|
  {
    if xs != [] {
      FoldKeeps(step, init, xs[..|xs| - 1], inv);
    }
  }

  /**
    * A loop that appends `f(x)` for each `x` in turn and raises at the first
    * element `f` has no value for.
    */
  function Collect<X, Y>(f: X -> Option<Y>, xs: seq<X>): (r: Option<seq<Y>>)
    ensures r.Some? ==> |r.value| == |xs|
    decreases |xs|
  {
    if xs == [] then Some([])
    else
      match Collect(f, xs[..|xs| - 1])
      case None => None
      case Some(ys) =>
        match f(xs[|xs| - 1])
        case None => None
        case Some(y) => Some(ys + [y])
  }

  lemma CollectStep<X, Y>(f: X -> Option<Y>, xs: seq<X>, i: nat)
    requires i < |xs|
    ensures Collect(f, xs[..i + 1]) ==
      match Collect(f, xs[..i])
      case None => None
      case Some(ys) => (match f(xs[i]) case None => None case Some(y) => Some(ys + [y]))
  {
    assert xs[..i + 1][..i] == xs[..i];
  }

  /** The loop raises exactly when some element has no value. */
  lemma {:induction false} CollectNone<X, Y>(f: X -> Option<Y>, xs: seq<X>)
    ensures Collect(f, xs).None? <==> exists k :: 0 <= k < |xs| && f(xs[k]).None?
    decreases |xs|
  {
    if xs != [] {
      var n := |xs| - 1;
      CollectNone(f, xs[..n]);
      if exists k :: 0 <= k < n && f(xs[..n][k]).None? {
        var k :| 0 <= k < n && f(xs[..n][k]).None?;
        assert xs[..n][k] == xs[k];
      }
      if exists k :: 0 <= k < |xs| && f(xs[k]).None? {
        var k :| 0 <= k < |xs| && f(xs[k]).None?;
        if k < n {
          assert xs[..n][k] == xs[k];
        }
      }
    }
  }

  /** When it does not raise, entry `k` is the value of element `k`. */
  lemma {:induction false} CollectAt<X, Y>(f: X -> Option<Y>, xs: seq<X>)
    requires Collect(f, xs).Some?
    ensures forall k :: 0 <= k < |xs| ==> f(xs[k]).Some? && Collect(f, xs).value[k] == f(xs[k]).value
    decreases |xs|
  {
    if xs != [] {
      var n := |xs| - 1;
      CollectAt(f, xs[..n]);
      assert forall k :: 0 <= k < n ==> xs[..n][k] == xs[k];
    }
  }

  /** Each element contributing at most one item, the whole contributes at most one per element. */
  /** A flat-map whose step gives one entry for the accepted elements and none for the others maps the accepted ones, in order. */
  lemma {:induction false} FlatMapFilterMap<A, B>(xs: seq<A>, f: A -> seq<B>, accepts: A -> bool, g: A -> B)
    requires forall x :: f(x) == if accepts(x) then [g(x)] else []
    ensures FlatMap(xs, f) == Map(Filter(xs, accepts), g)
    decreases |xs|
  {
    if xs != [] {
      var n := |xs| - 1;
      FlatMapFilterMap(xs[..n], f, accepts, g);
      assert FlatMap(xs, f) == FlatMap(xs[..n], f) + f(xs[n]);
      if accepts(xs[n]) {
        assert Filter(xs, accepts) == Filter(xs[..n], accepts) + [xs[n]];
        MapAppend(Filter(xs[..n], accepts), xs[n], g);
      } else {
        assert Filter(xs, accepts) == Filter(xs[..n], accepts);
      }
    }
  }

  lemma {:induction false} FlatMapAtMostOne<A, B>(xs: seq<A>, f: A -> seq<B>)
    requires forall x :: |f(x)| <= 1
    ensures |FlatMap(xs, f)| <= |xs|
    decreases |xs|
  {
    if xs != [] {
      FlatMapAtMostOne(xs[..|xs| - 1], f);
    }
  }

  /** Lists of authors with one affiliation each, put together, still have one each. */
  lemma {:induction false} FlatMapOneAffiliationEach<A>(xs: seq<A>, f: A -> seq<Author>)
    requires forall x :: OneAffiliationEach(f(x))
    ensures OneAffiliationEach(FlatMap(xs, f))
    decreases |xs|
  {
    if xs != [] {
      FlatMapOneAffiliationEach(xs[..|xs| - 1], f);
      OneAffiliationEachAppend(FlatMap(xs[..|xs| - 1], f), f(xs[|xs| - 1]));
    }
  }
}
