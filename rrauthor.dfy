/**
  * The `\RRauthor{…}` schemes of the French Institute for Research in
  * Computer Science and Automation: authors separated by commas or `\and`,
  * affiliations given by `\thanks{…}`, by `\thanks[id]{…}` with
  * `\thanksref{id}`, or not at all, in which case every author gets the
  * institute's own name.
  *
  * `uuid.uuid1` is an oracle `uuid`: the `k`-th `\thanks` match of a
  * command draws the id `uuid(k)`.
  */
module RrAuthorScheme {
  import opened PyStr
  import opened Regex
  import opened RegExp
  import opened Patterns
  import opened Authors
  import opened Scheme
  import CmdUtil

  /** `_DEFAULT_AFFILIATION`, leading space included. */
  const DefaultAffiliation: string := " " + InstituteName
  const InstituteName: string := "French Institute for Research in Computer Science and Automation, France"

  // ----------------------------------------------------------------------
  // Validators
  // ----------------------------------------------------------------------

  /** `RrAuthorThanks.validate`. */
  predicate RrAuthorThanksValid(cmdName: string, content: string) {
    cmdName == "rrauthor" && Has(content, "\\thanks{") && !Has(content, "\\thanksref{")
  }

  /** `RrAuthorThanksRef.validate`. */
  predicate RrAuthorThanksRefValid(cmdName: string, content: string) {
    cmdName == "rrauthor" && Has(content, "\\thanks[") && Has(content, "\\thanksref{")
  }

  /** `RrAuthorNoThanks.validate`. */
  predicate RrAuthorNoThanksValid(cmdName: string, content: string) {
    cmdName == "rrauthor" && !Has(content, "\\thanks")
  }

  /** At most one of the three `\RRauthor` schemes accepts a command. */
  lemma RrAuthorValidatorsExclusive(cmdName: string, content: string)
    ensures !(RrAuthorThanksValid(cmdName, content) && RrAuthorThanksRefValid(cmdName, content))
    ensures !(RrAuthorThanksValid(cmdName, content) && RrAuthorNoThanksValid(cmdName, content))
    ensures !(RrAuthorThanksRefValid(cmdName, content) && RrAuthorNoThanksValid(cmdName, content))
  {
    var c := Lower(content);
    assert "\\thanks{" == "\\thanks" + "{";
    assert "\\thanks[" == "\\thanks" + "[";
    if Contains(c, "\\thanks{") {
      ContainsPrefixOf(c, "\\thanks", "{");
    }
    if Contains(c, "\\thanks[") {
      ContainsPrefixOf(c, "\\thanks", "[");
    }
  }

  // ----------------------------------------------------------------------
  // Rebuilding a command around its `\thanks` matches
  // ----------------------------------------------------------------------

  /** Where the copying resumes after the matches `ms`: the end of the last one. */
  function EndOf(ms: seq<Match>): nat {
    if ms == [] then 0 else ms[|ms| - 1].end
  }

  lemma OrderedPrefix(s: string, ms: seq<Match>, n: nat)
    requires Ordered(s, ms, 0) && n <= |ms|
    ensures Ordered(s, ms[..n], 0)
    ensures EndOf(ms[..n]) <= |s|
    ensures n < |ms| ==> EndOf(ms[..n]) <= ms[n].start
  {
    if 0 < n < |ms| {
      assert ms[..n][n - 1] == ms[n - 1];
    }
  }

  /**
    * What `ref += cmd[start:m.start()]; ref += rep` over the matches `ms`
    * builds: the text before, between and around the matches copied in
    * order, the `k`-th match replaced by `reps[k]`.
    */
  function Built(s: string, ms: seq<Match>, reps: seq<string>): string
    requires Ordered(s, ms, 0) && |reps| == |ms|
    decreases |ms|
  {
    if ms == [] then ""
    else
      var n := |ms| - 1;
      OrderedPrefix(s, ms, n);
      Built(s, ms[..n], reps[..n]) + s[EndOf(ms[..n])..ms[n].start] + reps[n]
  }

  /** The whole rebuilt text: `Built` followed by `cmd[start:]`. */
  function Rebuilt(s: string, ms: seq<Match>, reps: seq<string>): string
    requires Ordered(s, ms, 0) && |reps| == |ms|
  {
    OrderedPrefix(s, ms, |ms|);
    assert ms[..|ms|] == ms;
    Built(s, ms, reps) + s[EndOf(ms)..]
  }

  lemma BuiltStep(s: string, ms: seq<Match>, reps: seq<string>, i: nat)
    requires Ordered(s, ms, 0) && |reps| == |ms| && i < |ms|
    ensures Ordered(s, ms[..i], 0) && Ordered(s, ms[..i + 1], 0)
    ensures EndOf(ms[..i]) <= ms[i].start && EndOf(ms[..i + 1]) == ms[i].end
    ensures Built(s, ms[..i + 1], reps[..i + 1]) ==
      Built(s, ms[..i], reps[..i]) + s[EndOf(ms[..i])..ms[i].start] + reps[i]
  {
    OrderedPrefix(s, ms, i);
    OrderedPrefix(s, ms, i + 1);
    assert ms[..i + 1][..i] == ms[..i];
    assert reps[..i + 1][..i] == reps[..i];
  }

  /** With every match replaced by its own text, the rebuilding copies the text unchanged. */
  lemma {:induction false} BuiltCopies(s: string, ms: seq<Match>, reps: seq<string>)
    requires Ordered(s, ms, 0) && |reps| == |ms|
    requires forall k :: 0 <= k < |ms| ==> reps[k] == Text(s, ms[k])
    ensures EndOf(ms) <= |s| && Built(s, ms, reps) == s[..EndOf(ms)]
    decreases |ms|
  {
    OrderedPrefix(s, ms, |ms|);
    assert ms[..|ms|] == ms;
    if ms != [] {
      var n := |ms| - 1;
      OrderedPrefix(s, ms, n);
      BuiltCopies(s, ms[..n], reps[..n]);
      var e := EndOf(ms[..n]);
      assert s[..ms[n].end] == s[..e] + s[e..ms[n].start] + s[ms[n].start..ms[n].end];
    }
  }

  /**
    * The rebuilding keeps every character outside the matches where it was:
    * replacing each match by its own text gives the command back.
    */
  lemma RebuiltCopiesOutside(s: string, ms: seq<Match>, reps: seq<string>)
    requires Ordered(s, ms, 0) && |reps| == |ms|
    requires forall k :: 0 <= k < |ms| ==> reps[k] == Text(s, ms[k])
    ensures Rebuilt(s, ms, reps) == s
  {
    BuiltCopies(s, ms, reps);
    assert s[..EndOf(ms)] + s[EndOf(ms)..] == s;
  }

  /** One recorded `\thanks`: its id and its content. */
  datatype Entry = Entry(id: string, content: string)

  /** ` \thanks{id} `, what `_substitute_thanks_argument` puts in place of a match. */
  function ThanksWithId(id: string): string {
    " \\thanks{" + id + "} "
  }

  /** ` \thanksref{id} `, what `_replace_thanks_with_ref` puts in place of a match. */
  function ThanksrefWithId(id: string): string {
    " \\thanksref{" + id + "} "
  }

  // ----------------------------------------------------------------------
  // _substitute_thanks_argument
  // ----------------------------------------------------------------------

  /** The replacements: the `k`-th `\thanks{…}` becomes ` \thanks{uuid(k)} `. */
  function FreshThanks(uuid: nat -> string, n: nat): (r: seq<string>)
    ensures |r| == n
  {
    seq(n, k requires 0 <= k < n => ThanksWithId(uuid(k)))
  }

  /** The recorded entries: the `k`-th fresh id with the sanitized, stripped `\thanks` content. */
  function FreshEntries(san: string -> string, uuid: nat -> string, ms: seq<Match>): (r: seq<Entry>)
    ensures |r| == |ms|
  {
    seq(|ms|, k requires 0 <= k < |ms| => Entry(uuid(k), san(Strip(Inner(ms[k])))))
  }

  /** `_substitute_thanks_argument`: the rebuilt command and the entries. */
  function SubstituteThanksArgument(san: string -> string, uuid: nat -> string, c: string): (string, seq<Entry>) {
    var ms := FindIter(ThanksContent, c);
    (Rebuilt(c, ms, FreshThanks(uuid, |ms|)), FreshEntries(san, uuid, ms))
  }

  /**
    * One entry per `\thanks{…}` match, in order, each under the fresh id
    * that replaces that match in the rebuilt text.
    */
  lemma SubstituteRecordsEachMatch(san: string -> string, uuid: nat -> string, c: string)
    ensures var ms := FindIter(ThanksContent, c);
      var (_, thanks) := SubstituteThanksArgument(san, uuid, c);
      |thanks| == |ms| &&
      forall k :: 0 <= k < |ms| ==>
        thanks[k].id == uuid(k) && thanks[k].content == san(Strip(Inner(ms[k]))) &&
        FreshThanks(uuid, |ms|)[k] == ThanksWithId(thanks[k].id)
  {
  }

  lemma SubstituteStep(san: string -> string, uuid: nat -> string, c: string, ms: seq<Match>, i: nat)
    requires Ordered(c, ms, 0) && i < |ms|
    ensures Ordered(c, ms[..i], 0) && Ordered(c, ms[..i + 1], 0)
    ensures EndOf(ms[..i]) <= ms[i].start && EndOf(ms[..i + 1]) == ms[i].end
    ensures Built(c, ms[..i + 1], FreshThanks(uuid, |ms|)[..i + 1]) ==
      Built(c, ms[..i], FreshThanks(uuid, |ms|)[..i]) + c[EndOf(ms[..i])..ms[i].start] + ThanksWithId(uuid(i))
    ensures FreshEntries(san, uuid, ms)[..i + 1] ==
      FreshEntries(san, uuid, ms)[..i] + [Entry(uuid(i), san(Strip(Inner(ms[i]))))]
  {
    var reps := FreshThanks(uuid, |ms|);
    BuiltStep(c, ms, reps, i);
    assert reps[i] == ThanksWithId(uuid(i));
    PrefixSnoc(FreshEntries(san, uuid, ms), i);
  }

  /** `_substitute_thanks_argument`. */
  method SubstituteThanksArgumentLoop(san: string -> string, uuid: nat -> string, c: string)
    returns (substitute: string, thanks: seq<Entry>)
    ensures (substitute, thanks) == SubstituteThanksArgument(san, uuid, c)
  {
    var ms := FindIter(ThanksContent, c);
    thanks := [];
    substitute := "";
    var start := 0;
    var i := 0;
    while i < |ms|
      invariant 0 <= i <= |ms|
      invariant Ordered(c, ms[..i], 0) && start == EndOf(ms[..i])
      invariant substitute == Built(c, ms[..i], FreshThanks(uuid, |ms|)[..i])
      invariant thanks == FreshEntries(san, uuid, ms)[..i]
    {
      SubstituteStep(san, uuid, c, ms, i);
      var m := ms[i];
      var replacement := uuid(i);
      var thanksContent := Strip(Inner(m));
      thanks := thanks + [Entry(replacement, san(thanksContent))];
      substitute := substitute + c[start..m.start];
      substitute := substitute + ThanksWithId(replacement);
      start := m.end;
      i := i + 1;
    }
    RebuiltEnd(c, ms, FreshThanks(uuid, |ms|));
    assert thanks == FreshEntries(san, uuid, ms);
    substitute := substitute + c[start..];
  }

  /** Once every match is done, the rebuilt text is what was built plus the rest of the command. */
  lemma RebuiltEnd(s: string, ms: seq<Match>, reps: seq<string>)
    requires Ordered(s, ms, 0) && |reps| == |ms|
    ensures EndOf(ms[..|ms|]) <= |s|
    ensures Rebuilt(s, ms, reps) == Built(s, ms[..|ms|], reps[..|ms|]) + s[EndOf(ms[..|ms|])..]
  {
    assert ms[..|ms|] == ms;
    assert reps[..|ms|] == reps;
  }

  // ----------------------------------------------------------------------
  // _replace_thanks_with_ref
  // ----------------------------------------------------------------------

  /** The id of the `k`-th `\thanks[id]{…}` match: its own id, or a fresh one when it has none. */
  function RefId(uuid: nat -> string, m: Match, k: nat): string {
    if m.g2 != "" then m.g2 else uuid(k)
  }

  function RefReplacements(uuid: nat -> string, ms: seq<Match>): (r: seq<string>)
    ensures |r| == |ms|
  {
    seq(|ms|, k requires 0 <= k < |ms| => ThanksrefWithId(RefId(uuid, ms[k], k)))
  }

  /** The recorded affiliations: the id with the stripped, unsanitized `\thanks` content. */
  function RefEntries(uuid: nat -> string, ms: seq<Match>): (r: seq<Entry>)
    ensures |r| == |ms|
  {
    seq(|ms|, k requires 0 <= k < |ms| => Entry(RefId(uuid, ms[k], k), Strip(Inner(ms[k]))))
  }

  /** `_replace_thanks_with_ref`: the rebuilt command and the affiliations. */
  function ReplaceThanksWithRef(P: Patterns, uuid: nat -> string, c: string): (string, seq<Entry>) {
    var ms := FindIter(P.rrauthorThanks, c);
    (Rebuilt(c, ms, RefReplacements(uuid, ms)), RefEntries(uuid, ms))
  }

  /**
    * One affiliation per `\thanks[…]{…}` match, in order; a match with an
    * explicit id keeps it, and each match is replaced by a `\thanksref` to
    * the id its affiliation is recorded under.
    */
  lemma ReplaceRecordsEachMatch(P: Patterns, uuid: nat -> string, c: string)
    ensures var ms := FindIter(P.rrauthorThanks, c);
      var (_, affiliations) := ReplaceThanksWithRef(P, uuid, c);
      |affiliations| == |ms| &&
      forall k :: 0 <= k < |ms| ==>
        (ms[k].g2 != "" ==> affiliations[k].id == ms[k].g2) &&
        (ms[k].g2 == "" ==> affiliations[k].id == uuid(k)) &&
        affiliations[k].content == Strip(Inner(ms[k])) &&
        RefReplacements(uuid, ms)[k] == ThanksrefWithId(affiliations[k].id)
  {
  }

  lemma ReplaceStep(uuid: nat -> string, c: string, ms: seq<Match>, i: nat)
    requires Ordered(c, ms, 0) && i < |ms|
    ensures Ordered(c, ms[..i], 0) && Ordered(c, ms[..i + 1], 0)
    ensures EndOf(ms[..i]) <= ms[i].start && EndOf(ms[..i + 1]) == ms[i].end
    ensures Built(c, ms[..i + 1], RefReplacements(uuid, ms)[..i + 1]) ==
      Built(c, ms[..i], RefReplacements(uuid, ms)[..i]) + c[EndOf(ms[..i])..ms[i].start] + ThanksrefWithId(RefId(uuid, ms[i], i))
    ensures RefEntries(uuid, ms)[..i + 1] ==
      RefEntries(uuid, ms)[..i] + [Entry(RefId(uuid, ms[i], i), Strip(Inner(ms[i])))]
  {
    var reps := RefReplacements(uuid, ms);
    BuiltStep(c, ms, reps, i);
    assert reps[i] == ThanksrefWithId(RefId(uuid, ms[i], i));
    PrefixSnoc(RefEntries(uuid, ms), i);
  }

  /** A prefix one longer is the shorter prefix and the next element. */
  lemma PrefixSnoc<T>(xs: seq<T>, i: nat)
    requires i < |xs|
    ensures xs[..i + 1] == xs[..i] + [xs[i]]
  {
  }

  /** `_replace_thanks_with_ref`. */
  method ReplaceThanksWithRefLoop(P: Patterns, uuid: nat -> string, c: string)
    returns (refCmd: string, affiliations: seq<Entry>)
    ensures (refCmd, affiliations) == ReplaceThanksWithRef(P, uuid, c)
  {
    var ms := FindIter(P.rrauthorThanks, c);
    affiliations := [];
    refCmd := "";
    var start := 0;
    var i := 0;
    while i < |ms|
      invariant 0 <= i <= |ms|
      invariant Ordered(c, ms[..i], 0) && start == EndOf(ms[..i])
      invariant refCmd == Built(c, ms[..i], RefReplacements(uuid, ms)[..i])
      invariant affiliations == RefEntries(uuid, ms)[..i]
    {
      ReplaceStep(uuid, c, ms, i);
      var m := ms[i];
      var thanksContent := Strip(Inner(m));
      var refId := if m.g2 != "" then m.g2 else uuid(i);
      affiliations := affiliations + [Entry(refId, thanksContent)];
      refCmd := refCmd + c[start..m.start];
      refCmd := refCmd + ThanksrefWithId(refId);
      start := m.end;
      i := i + 1;
    }
    RebuiltEnd(c, ms, RefReplacements(uuid, ms));
    assert affiliations == RefEntries(uuid, ms);
    refCmd := refCmd + c[start..];
  }

  // ----------------------------------------------------------------------
  // Looking an id up
  // ----------------------------------------------------------------------

  /** `next(a for a in entries if a.id == id)`, with `None` for the `StopIteration` it raises. */
  function FirstWithId(entries: seq<Entry>, id: string): (r: Option<Entry>)
    ensures r.None? <==> forall k :: 0 <= k < |entries| ==> entries[k].id != id
    ensures r.Some? ==> exists k :: (0 <= k < |entries| && entries[k] == r.value && r.value.id == id &&
      forall j :: 0 <= j < k ==> entries[j].id != id)
    decreases |entries|
  {
    if entries == [] then None
    else if entries[0].id == id then Some(entries[0])
    else
      var r := FirstWithId(entries[1..], id);
      assert forall k :: 1 <= k < |entries| ==> entries[k] == entries[1..][k - 1];
      if r.Some? then
        var k :| 0 <= k < |entries[1..]| && entries[1..][k] == r.value && r.value.id == id &&
          forall j :: 0 <= j < k ==> entries[1..][j].id != id;
        assert entries[k + 1] == r.value;
        r
      else r
  }

  // ----------------------------------------------------------------------
  // extract_with_substitute
  // ----------------------------------------------------------------------

  /**
    * What one part contributes: without `\thanks{…}` the part is the name
    * and the default affiliation, sanitized, is the affiliation; otherwise
    * the name is the part without that `\thanks{…}` and the affiliation is
    * its content or, when there are entries, the content recorded under
    * that id (`None` when none is).
    */
  function SubstitutedAuthor(san: string -> string, thanks: seq<Entry>, part: string): Option<Author> {
    match Search(ThanksContent, part)
    case None => Some(Author(san(part), [san(DefaultAffiliation)]))
    case Some(m) =>
      var name := Delete(part, Text(part, m));
      var affiliation := Inner(m);
      if |thanks| > 0 then
        match FirstWithId(thanks, affiliation)
        case None => None
        case Some(e) => Some(Author(san(name), [san(e.content)]))
      else Some(Author(san(name), [san(affiliation)]))
  }

  function SubstitutedAuthorOf(san: string -> string, thanks: seq<Entry>): string -> Option<Author> {
    (part: string) => SubstitutedAuthor(san, thanks, part)
  }

  /** `extract_with_substitute`; an empty `thanks` stands for `None` as well, which `if thanks:` treats alike. */
  function ExtractWithSubstitute(san: string -> string, content: string, sep: string, thanks: seq<Entry>)
    : Option<seq<Author>>
    requires |sep| > 0
  {
    Collect(SubstitutedAuthorOf(san, thanks), Split(content, sep))
  }

  /** `extract_with_substitute`. */
  method ExtractWithSubstituteLoop(san: string -> string, content: string, sep: string, thanks: seq<Entry>)
    returns (r: Option<seq<Author>>)
    requires |sep| > 0
    ensures r == ExtractWithSubstitute(san, content, sep, thanks)
  {
    var parts := Split(content, sep);
    var authorAff := [];
    var i := 0;
    while i < |parts|
      invariant 0 <= i <= |parts|
      invariant Collect(SubstitutedAuthorOf(san, thanks), parts[..i]) == Some(authorAff)
    {
      CollectStep(SubstitutedAuthorOf(san, thanks), parts, i);
      var author := SubstituteTurn(san, thanks, parts[i]);
      if author.None? {
        CollectNoneStays(SubstitutedAuthorOf(san, thanks), parts, i + 1);
        return None;
      }
      authorAff := authorAff + [author.value];
      i := i + 1;
    }
    assert parts[..|parts|] == parts;
    r := Some(authorAff);
  }

  /** One turn of the loop of `extract_with_substitute`: None when the reference has no entry. */
  method SubstituteTurn(san: string -> string, thanks: seq<Entry>, part: string) returns (author: Option<Author>)
    ensures author == SubstitutedAuthor(san, thanks, part)
  {
    var name, affiliation;
    match Search(ThanksContent, part) {
      case None =>
        name := part;
        affiliation := DefaultAffiliation;
      case Some(m) =>
        name := Delete(part, Text(part, m));
        affiliation := Inner(m);
        if |thanks| > 0 {
          var e := FirstWithId(thanks, affiliation);
          if e.None? {
            return None;
          }
          affiliation := e.value.content;
        }
    }
    author := Some(Author(san(name), [san(affiliation)]));
  }

  /** Once the loop has raised it stays raised, whatever parts follow. */
  lemma {:induction false} CollectNoneStays<X, Y>(f: X -> Option<Y>, xs: seq<X>, i: nat)
    requires i <= |xs| && Collect(f, xs[..i]).None?
    ensures Collect(f, xs).None?
    decreases |xs| - i
  {
    if i < |xs| {
      CollectStep(f, xs, i);
      CollectNoneStays(f, xs, i + 1);
    } else {
      assert xs[..i] == xs;
    }
  }

  /**
    * Unless it raises, `extract_with_substitute` yields one author per
    * split part, each with one affiliation, and a part without `\thanks`
    * is the sanitized part with the sanitized default affiliation.
    */
  lemma ExtractWithSubstituteParts(san: string -> string, content: string, sep: string, thanks: seq<Entry>)
    requires |sep| > 0
    requires ExtractWithSubstitute(san, content, sep, thanks).Some?
    ensures var parts := Split(content, sep);
      var r := ExtractWithSubstitute(san, content, sep, thanks).value;
      |r| == |parts| && OneAffiliationEach(r) &&
      forall k :: 0 <= k < |parts| && Search(ThanksContent, parts[k]).None? ==>
        r[k] == Author(san(parts[k]), [san(DefaultAffiliation)])
  {
    var parts := Split(content, sep);
    var f := SubstitutedAuthorOf(san, thanks);
    CollectAt(f, parts);
    var r := Collect(f, parts).value;
    forall k | 0 <= k < |parts|
      ensures |r[k].affiliations| == 1
      ensures Search(ThanksContent, parts[k]).None? ==> r[k] == Author(san(parts[k]), [san(DefaultAffiliation)])
    {
      SubstitutedAuthorShape(san, thanks, parts[k]);
    }
  }

  lemma SubstitutedAuthorShape(san: string -> string, thanks: seq<Entry>, part: string)
    ensures SubstitutedAuthor(san, thanks, part).Some? ==> |SubstitutedAuthor(san, thanks, part).value.affiliations| == 1
    ensures Search(ThanksContent, part).None? ==>
      SubstitutedAuthor(san, thanks, part) == Some(Author(san(part), [san(DefaultAffiliation)]))
  {
    var m := Search(ThanksContent, part);
    if m.Some? {
      var a := SubstitutedAuthor(san, thanks, part);
      if |thanks| > 0 {
        var e := FirstWithId(thanks, Inner(m.value));
        assert a == if e.None? then None else Some(Author(san(Delete(part, Text(part, m.value))), [san(e.value.content)]));
      }
    }
  }

  /**
    * `extract_with_substitute` raises exactly when, with entries given, some
    * part's `\thanks{id}` names an id no entry has.
    */
  lemma ExtractWithSubstituteRaises(san: string -> string, content: string, sep: string, thanks: seq<Entry>)
    requires |sep| > 0
    ensures var parts := Split(content, sep);
      ExtractWithSubstitute(san, content, sep, thanks).None? <==>
      |thanks| > 0 && exists k :: (0 <= k < |parts| && Search(ThanksContent, parts[k]).Some? &&
        FirstWithId(thanks, Inner(Search(ThanksContent, parts[k]).value)).None?)
  {
    CollectNone(SubstitutedAuthorOf(san, thanks), Split(content, sep));
  }

  /** The sanitized default affiliation loses its leading space: the name `sanitize` gives is trimmed. */
  lemma SanitizedDefaultTrimmed(P: Patterns)
    ensures CmdUtil.Sanitize(P, DefaultAffiliation) != DefaultAffiliation
  {
    assert DefaultAffiliation[0] == ' ';
    assert IsSpace(' ');
  }

  // ----------------------------------------------------------------------
  // The extractors
  // ----------------------------------------------------------------------

  /** `r"\and " if r"\and " in c else ","`. */
  function Separator(c: string): (sep: string)
    ensures |sep| > 0
  {
    if Contains(c, "\\and ") then "\\and " else ","
  }

  /**
    * `RrAuthorThanks.extract`: the unbraced, stripped content; with commas
    * as separators each `\thanks{…}` is first swapped for a fresh id, so
    * that commas inside it do not split the authors.
    */
  function RrAuthorThanksExtract(san: string -> string, uuid: nat -> string, content: string): Option<seq<Author>> {
    var c := Strip(Unbraced(content));
    var sep := Separator(c);
    if sep == "," then
      var (substitute, thanks) := SubstituteThanksArgument(san, uuid, c);
      ExtractWithSubstitute(san, substitute, sep, thanks)
    else ExtractWithSubstitute(san, c, sep, [])
  }

  /** With `\and` separators nothing is looked up, so the extraction never raises. */
  lemma RrAuthorThanksAndNeverRaises(san: string -> string, uuid: nat -> string, content: string)
    requires Contains(Strip(Unbraced(content)), "\\and ")
    ensures RrAuthorThanksExtract(san, uuid, content).Some?
  {
    ExtractWithSubstituteRaises(san, Strip(Unbraced(content)), "\\and ", []);
  }

  /** `RrAuthorThanks.extract`. */
  method RrAuthorThanksExtractLoop(san: string -> string, uuid: nat -> string, content: string)
    returns (r: Option<seq<Author>>)
    ensures r == RrAuthorThanksExtract(san, uuid, content)
  {
    var c := Strip(Unbraced(content));
    var sep := if Contains(c, "\\and ") then "\\and " else ",";
    var thanks := [];
    if sep == "," {
      c, thanks := SubstituteThanksArgumentLoop(san, uuid, c);
    }
    r := ExtractWithSubstituteLoop(san, c, sep, thanks);
  }

  /**
    * What one part of the rebuilt command contributes to
    * `RrAuthorThanksRef.extract`: with a `\thanksref{id}` the name is the
    * part without it and the affiliation the sanitized content recorded
    * under the id (`None` when none is); without one, the part is the name
    * and the default affiliation is taken verbatim.
    */
  function RefPartAuthor(san: string -> string, affiliations: seq<Entry>, part: string): Option<Author> {
    match Search(ThanksrefContent, part)
    case Some(m) =>
      var name := san(Delete(part, Text(part, m)));
      (match FirstWithId(affiliations, Inner(m))
       case None => None
       case Some(e) => Some(Author(name, [san(e.content)])))
    case None => Some(Author(san(part), [DefaultAffiliation]))
  }

  function RefPartAuthorOf(san: string -> string, affiliations: seq<Entry>): string -> Option<Author> {
    (part: string) => RefPartAuthor(san, affiliations, part)
  }

  /** The parts `RrAuthorThanksRef.extract` walks through, and the affiliations it looks ids up in. */
  function RefParts(P: Patterns, uuid: nat -> string, content: string): (seq<string>, seq<Entry>) {
    var c := Strip(Unbraced(P.joinMulti(ThanksrefMulti, content)));
    var (refCmd, affiliations) := ReplaceThanksWithRef(P, uuid, c);
    (Split(refCmd, Separator(c)), affiliations)
  }

  /**
    * `RrAuthorThanksRef.extract`: adjacent `\thanksref` joined, the content
    * unbraced and stripped, every `\thanks[…]{…}` turned into a
    * `\thanksref`, and the parts split on the separator of the unrebuilt
    * content.
    */
  function RrAuthorThanksRefExtract(P: Patterns, san: string -> string, uuid: nat -> string, content: string)
    : Option<seq<Author>>
  {
    var (parts, affiliations) := RefParts(P, uuid, content);
    Collect(RefPartAuthorOf(san, affiliations), parts)
  }

  /** `RrAuthorThanksRef.extract`. */
  method RrAuthorThanksRefExtractLoop(P: Patterns, san: string -> string, uuid: nat -> string, content: string)
    returns (r: Option<seq<Author>>)
    ensures r == RrAuthorThanksRefExtract(P, san, uuid, content)
  {
    var c := P.joinMulti(ThanksrefMulti, content);
    c := Strip(Unbraced(c));
    var refCmd, affiliations := ReplaceThanksWithRefLoop(P, uuid, c);
    var sep := if Contains(c, "\\and ") then "\\and " else ",";
    var parts := Split(refCmd, sep);
    assert (parts, affiliations) == RefParts(P, uuid, content);
    r := RefPartsAuthors(san, affiliations, parts);
  }

  /** The loop of `RrAuthorThanksRef.extract` over the parts. */
  method RefPartsAuthors(san: string -> string, affiliations: seq<Entry>, parts: seq<string>)
    returns (r: Option<seq<Author>>)
    ensures r == Collect(RefPartAuthorOf(san, affiliations), parts)
  {
    ghost var f := RefPartAuthorOf(san, affiliations);
    var authorAff := [];
    var i := 0;
    while i < |parts|
      invariant 0 <= i <= |parts|
      invariant Collect(f, parts[..i]) == Some(authorAff)
    {
      CollectStep(f, parts, i);
      var author := RefPartAuthorStep(san, affiliations, parts[i]);
      if author.None? {
        CollectNoneStays(f, parts, i + 1);
        return None;
      }
      authorAff := authorAff + [author.value];
      i := i + 1;
    }
    assert parts[..|parts|] == parts;
    r := Some(authorAff);
  }

  /** The body of the loop of `RrAuthorThanksRef.extract`, for one part. */
  method RefPartAuthorStep(san: string -> string, affiliations: seq<Entry>, part: string)
    returns (author: Option<Author>)
    ensures author == RefPartAuthor(san, affiliations, part)
  {
    match Search(ThanksrefContent, part) {
      case Some(m) =>
        var refId := Inner(m);
        var name := san(Delete(part, Text(part, m)));
        var a := FirstWithId(affiliations, refId);
        if a.None? {
          return None;
        }
        author := Some(Author(name, [san(a.value.content)]));
      case None =>
        author := Some(Author(san(part), [DefaultAffiliation]));
    }
  }

  /** A part whose `\thanksref` id no `\thanks[…]{…}` defines. */
  predicate Unresolved(affiliations: seq<Entry>, part: string) {
    Search(ThanksrefContent, part).Some? &&
    forall j :: 0 <= j < |affiliations| ==> affiliations[j].id != Inner(Search(ThanksrefContent, part).value)
  }

  /**
    * `RrAuthorThanksRef.extract` raises exactly when some part refers to an
    * id that no `\thanks[…]{…}` defines; otherwise it yields one author per
    * part, each with one affiliation, the default one verbatim for a part
    * without `\thanksref`.
    */
  lemma RrAuthorThanksRefOutcome(P: Patterns, san: string -> string, uuid: nat -> string, content: string)
    ensures var (parts, affiliations) := RefParts(P, uuid, content);
      var r := RrAuthorThanksRefExtract(P, san, uuid, content);
      && (r.None? <==> exists k :: 0 <= k < |parts| && Unresolved(affiliations, parts[k]))
      && (r.Some? ==> (|r.value| == |parts| && OneAffiliationEach(r.value) &&
        forall k :: 0 <= k < |parts| && Search(ThanksrefContent, parts[k]).None? ==>
          r.value[k] == Author(san(parts[k]), [DefaultAffiliation])))
  {
    var rp := RefParts(P, uuid, content);
    var r := RrAuthorThanksRefExtract(P, san, uuid, content);
    RefPartsNone(san, rp.0, rp.1, r);
    RefPartsSome(san, rp.0, rp.1, r);
  }

  /** Collecting the parts' authors raises exactly on an unresolved part. */
  lemma RefPartsNone(san: string -> string, parts: seq<string>, affiliations: seq<Entry>, r: Option<seq<Author>>)
    requires r == Collect(RefPartAuthorOf(san, affiliations), parts)
    ensures r.None? <==> exists k :: 0 <= k < |parts| && Unresolved(affiliations, parts[k])
  {
    var f := RefPartAuthorOf(san, affiliations);
    forall k | 0 <= k < |parts|
      ensures f(parts[k]).None? <==> Unresolved(affiliations, parts[k])
    {
      RefPartRaises(san, affiliations, parts[k]);
    }
    CollectNone(f, parts);
  }

  lemma RefPartRaises(san: string -> string, affiliations: seq<Entry>, part: string)
    ensures RefPartAuthorOf(san, affiliations)(part).None? <==> Unresolved(affiliations, part)
  {
    RefPartAuthorShape(san, affiliations, part);
  }

  /** Collected authors: one per part, each with one affiliation, the default one for a part without `\thanksref`. */
  lemma RefPartsSome(san: string -> string, parts: seq<string>, affiliations: seq<Entry>, r: Option<seq<Author>>)
    requires r == Collect(RefPartAuthorOf(san, affiliations), parts)
    ensures r.Some? ==> (|r.value| == |parts| && OneAffiliationEach(r.value) &&
        forall k :: 0 <= k < |parts| && Search(ThanksrefContent, parts[k]).None? ==>
          r.value[k] == Author(san(parts[k]), [DefaultAffiliation]))
  {
    var f := RefPartAuthorOf(san, affiliations);
    if r.Some? {
      CollectAt(f, parts);
      var authors := r.value;
      forall k | 0 <= k < |parts|
        ensures |authors[k].affiliations| == 1
        ensures Search(ThanksrefContent, parts[k]).None? ==> authors[k] == Author(san(parts[k]), [DefaultAffiliation])
      {
        RefPartAuthorShape(san, affiliations, parts[k]);
      }
    }
  }

  lemma RefPartAuthorShape(san: string -> string, affiliations: seq<Entry>, part: string)
    ensures var a := RefPartAuthor(san, affiliations, part);
      && (a.None? <==> Unresolved(affiliations, part))
      && (a.Some? ==> |a.value.affiliations| == 1)
      && (Search(ThanksrefContent, part).None? ==> a == Some(Author(san(part), [DefaultAffiliation])))
  {
    var m := Search(ThanksrefContent, part);
    if m.Some? {
      var e := FirstWithId(affiliations, Inner(m.value));
      assert RefPartAuthor(san, affiliations, part) ==
        if e.None? then None else Some(Author(san(Delete(part, Text(part, m.value))), [san(e.value.content)]));
    }
  }

  /**
    * `RrAuthorNoThanks.extract`: one author per separator-split name, each
    * with the default affiliation verbatim, leading space included.
    */
  function RrAuthorNoThanksExtract(san: string -> string, split: string -> seq<string>, content: string): seq<Author> {
    Shared(san, split(content), DefaultAffiliation)
  }

  lemma RrAuthorNoThanksDefault(san: string -> string, split: string -> seq<string>, content: string)
    ensures var names := split(content);
      var r := RrAuthorNoThanksExtract(san, split, content);
      |r| == |names| &&
      forall k :: 0 <= k < |r| ==> (r[k].name == san(names[k]) && r[k].affiliations == [DefaultAffiliation] &&
        r[k].affiliations[0][0] == ' ')
  {
    SharedAt(san, split(content), DefaultAffiliation);
  }
}
