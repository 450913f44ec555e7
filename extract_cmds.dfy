/**
  * Finding the author and affiliation commands of a TeX file: matches with
  * an empty argument and matches inside an already accepted match are
  * dropped, the `\begin{authors}`-style environments are taken first, and
  * each accepted command is kept together with its normalised text.
  */
module ExtractCmds {
  import opened PyStr
  import opened Regex
  import opened RegExp
  import opened Patterns
  import opened Latex

  /** One accepted match: its span in the TeX text and the text itself (`start_pos`, `end_pos`, `text`). */
  datatype Span = Span(start: nat, end: nat, text: string)

  /** `LatexCmd`: the command as found and as normalised. */
  datatype LatexCmd = LatexCmd(original: string, sanitized: string)

  /** `ExtCmdData`: the document classes and commands of one paper. */
  datatype ExtCmdData = ExtCmdData(documentclasses: seq<string>, cmds: seq<LatexCmd>)

  // ----------------------------------------------------------------------
  // Empty commands
  // ----------------------------------------------------------------------

  const BraceAndSpace: set<char> := {'{', '}', ' '}

  /** The text between the first `{` and the last `}` (Python slice, so a missing `}` cuts the last character). */
  function Argument(cmd: string): string {
    Slice(cmd, Find(cmd, "{"), RFind(cmd, "}"))
  }

  /** `_is_empty_command`. */
  predicate IsEmptyCommand(cmd: string) {
    '{' !in cmd || StripChars(Argument(cmd), BraceAndSpace) == ""
  }

  /**
    * A command is empty exactly when it has no `{`, or when its argument
    * holds nothing but braces and spaces.
    */
  lemma EmptyCommandIff(cmd: string)
    ensures IsEmptyCommand(cmd) <==>
      '{' !in cmd || forall i :: 0 <= i < |Argument(cmd)| ==> Argument(cmd)[i] in BraceAndSpace
  {
    StripAllGone(Argument(cmd), c => c in BraceAndSpace);
  }

  // ----------------------------------------------------------------------
  // Enclosed matches
  // ----------------------------------------------------------------------

  /** `[start, end]` lies strictly inside the span. */
  predicate Encloses(c: Span, start: nat, end: nat) {
    start > c.start && end < c.end
  }

  /**
    * `_is_enclosed_cmd` as a recursive definition: look at the spans from
    * the last one backwards, stop with false at the first one that ends
    * before `start`, and answer true at the first one that encloses.
    */
  function EnclosedScan(cmds: seq<Span>, start: nat, end: nat): bool
    decreases |cmds|
  {
    if cmds == [] then false
    else
      var c := cmds[|cmds| - 1];
      if start > c.end then false
      else if Encloses(c, start, end) then true
      else EnclosedScan(cmds[..|cmds| - 1], start, end)
  }

  /**
    * `_is_enclosed_cmd`: a reversed walk over the recorded spans with an
    * early stop.
    */
  method IsEnclosedCmd(cmds: seq<Span>, start: nat, end: nat) returns (r: bool)
    ensures r == EnclosedScan(cmds, start, end)
    ensures cmds == [] ==> !r
  {
    if |cmds| == 0 {
      return false;
    }
    var i := |cmds|;
    assert cmds[..i] == cmds;
    while i > 0
      invariant 0 <= i <= |cmds|
      invariant EnclosedScan(cmds[..i], start, end) == EnclosedScan(cmds, start, end)
    {
      var command := cmds[i - 1];
      assert cmds[..i][..i - 1] == cmds[..i - 1];
      if start > command.end {
        break;
      }
      if start > command.start && end < command.end {
        return true;
      }
      i := i - 1;
    }
    return false;
  }

  /** Spans in increasing position order, each ending before the next starts. */
  predicate SpansOrdered(cmds: seq<Span>) {
    (forall k :: 0 <= k < |cmds| ==> cmds[k].start < cmds[k].end)
    && (forall k, j :: 0 <= k < j < |cmds| ==> cmds[k].end <= cmds[j].start)
  }

  /** The scan only says yes for a span that really encloses. */
  lemma {:induction false} EnclosedScanSound(cmds: seq<Span>, start: nat, end: nat)
    ensures EnclosedScan(cmds, start, end) ==> exists k :: 0 <= k < |cmds| && Encloses(cmds[k], start, end)
    decreases |cmds|
  {
    if cmds != [] {
      var init := cmds[..|cmds| - 1];
      EnclosedScanSound(init, start, end);
      if EnclosedScan(init, start, end) && !Encloses(cmds[|cmds| - 1], start, end) {
        var k :| 0 <= k < |init| && Encloses(init[k], start, end);
        assert cmds[k] == init[k];
      }
    }
  }

  /**
    * On ordered spans the early stop loses nothing: the scan says yes
    * exactly when some span encloses `[start, end]`.
    */
  lemma {:induction false} EnclosedScanComplete(cmds: seq<Span>, start: nat, end: nat)
    requires SpansOrdered(cmds) && start <= end
    ensures EnclosedScan(cmds, start, end) <==> exists k :: 0 <= k < |cmds| && Encloses(cmds[k], start, end)
    decreases |cmds|
  {
    EnclosedScanSound(cmds, start, end);
    if cmds != [] {
      var init := cmds[..|cmds| - 1];
      var last := cmds[|cmds| - 1];
      assert SpansOrdered(init);
      EnclosedScanComplete(init, start, end);
      if k :| 0 <= k < |cmds| && Encloses(cmds[k], start, end) {
        if k < |cmds| - 1 {
          assert last.start >= cmds[k].end > end;
          assert init[k] == cmds[k];
        }
      }
    }
  }

  /**
    * Without the order the early stop misses enclosing spans: with `[0, 10)`
    * recorded before `[0, 1)`, the scan stops at `[0, 1)` and never sees that
    * `[0, 10)` encloses `[5, 6]`.
    */
  lemma UnorderedScanMisses()
    ensures Encloses(Span(0, 10, ""), 5, 6)
    ensures !EnclosedScan([Span(0, 10, ""), Span(0, 1, "")], 5, 6)
  {
  }

  // ----------------------------------------------------------------------
  // Accepting matches
  // ----------------------------------------------------------------------

  /** Whether the match over `[start, end)` is kept, given the environments and the spans kept so far. */
  predicate Accepted(tex: string, start: nat, end: nat, envs: seq<Span>, cmds: seq<Span>) {
    !EnclosedScan(envs, start, end) && !EnclosedScan(cmds, start, end)
    && !IsEmptyCommand(Slice(tex, start, end))
  }

  function SpanOf(tex: string, start: nat, end: nat): Span {
    Span(start, end, Slice(tex, start, end))
  }

  /** What decides whether the match over `[start, end)` is kept, given the spans kept so far. */
  type Keep = (nat, nat, seq<Span>) -> bool

  /** The spans a left-to-right walk over `ms` holds, starting from `cmds`, when `keep` decides. */
  function ExtractedWith(tex: string, ms: seq<Match>, keep: Keep, cmds: seq<Span>): seq<Span>
    decreases |ms|
  {
    if ms == [] then cmds
    else
      var m := ms[0];
      if keep(m.start, m.end, cmds) then ExtractedWith(tex, ms[1..], keep, cmds + [SpanOf(tex, m.start, m.end)])
      else ExtractedWith(tex, ms[1..], keep, cmds)
  }

  /** `Accepted` as the decision of the walk. */
  function AcceptedIn(tex: string, envs: seq<Span>): Keep {
    (start: nat, end: nat, kept: seq<Span>) => Accepted(tex, start, end, envs, kept)
  }

  /** The spans the loop of `_extract_authorship_from_tex` holds after the matches `ms`, starting from `cmds`. */
  function Extracted(tex: string, ms: seq<Match>, envs: seq<Span>, cmds: seq<Span>): seq<Span> {
    ExtractedWith(tex, ms, AcceptedIn(tex, envs), cmds)
  }

  /**
    * `_extract_authorship_from_tex`: walk the matches of `pattern` in order
    * and keep each one that no environment and no kept span encloses and
    * whose argument is not empty. No environments (`envs=None`) is the empty
    * list.
    */
  method ExtractAuthorshipFromTex(pattern: MatchAt, tex: string, envs: seq<Span>) returns (cmds: seq<Span>)
    ensures cmds == Extracted(tex, FindIter(pattern, tex), envs, [])
  {
    var ms := FindIter(pattern, tex);
    ghost var keep := AcceptedIn(tex, envs);
    cmds := [];
    var i := 0;
    while i < |ms|
      invariant 0 <= i <= |ms|
      invariant ExtractedWith(tex, ms[i..], keep, cmds) == ExtractedWith(tex, ms, keep, [])
    {
      var start := ms[i].start;
      var end := ms[i].end;
      assert ms[i..][1..] == ms[i + 1..];
      var inEnv := IsEnclosedCmd(envs, start, end);
      var inCmds := IsEnclosedCmd(cmds, start, end);
      if inEnv || inCmds {
        i := i + 1;
        continue;
      }
      var cmd := Slice(tex, start, end);
      if IsEmptyCommand(cmd) {
        i := i + 1;
        continue;
      }
      cmds := cmds + [Span(start, end, Slice(tex, start, end))];
      i := i + 1;
    }
    assert ms[|ms|..] == [];
  }

  /** A kept span at `k`: its text is its slice, and `keep` accepted it against the spans before it. */
  predicate KeptAt(tex: string, keep: Keep, r: seq<Span>, k: nat)
    requires k < |r|
  {
    r[k] == SpanOf(tex, r[k].start, r[k].end) && keep(r[k].start, r[k].end, r[..k])
  }

  /** The walk only appends: the spans it started with stay in front. */
  lemma {:induction false} ExtractedPrefix(tex: string, ms: seq<Match>, keep: Keep, cmds: seq<Span>)
    ensures var r := ExtractedWith(tex, ms, keep, cmds); |cmds| <= |r| && r[..|cmds|] == cmds
    decreases |ms|
  {
    if ms != [] {
      var m := ms[0];
      if keep(m.start, m.end, cmds) {
        var c2 := cmds + [SpanOf(tex, m.start, m.end)];
        ExtractedPrefix(tex, ms[1..], keep, c2);
        var r := ExtractedWith(tex, ms, keep, cmds);
        assert r[..|cmds|] == r[..|c2|][..|cmds|];
      } else {
        ExtractedPrefix(tex, ms[1..], keep, cmds);
      }
    }
  }

  /** Every span the walk appends was accepted against the spans before it. */
  lemma {:induction false} ExtractedAdds(tex: string, ms: seq<Match>, keep: Keep, cmds: seq<Span>)
    ensures var r := ExtractedWith(tex, ms, keep, cmds);
      forall k :: |cmds| <= k < |r| ==> KeptAt(tex, keep, r, k)
    decreases |ms|
  {
    if ms != [] {
      var m := ms[0];
      var r := ExtractedWith(tex, ms, keep, cmds);
      if keep(m.start, m.end, cmds) {
        var c2 := cmds + [SpanOf(tex, m.start, m.end)];
        ExtractedAdds(tex, ms[1..], keep, c2);
        ExtractedPrefix(tex, ms[1..], keep, c2);
        assert r == ExtractedWith(tex, ms[1..], keep, c2);
        var k := |cmds|;
        assert r[k] == r[..|c2|][k] == SpanOf(tex, m.start, m.end);
        assert r[..k] == r[..|c2|][..k] == cmds;
        assert KeptAt(tex, keep, r, k);
      } else {
        assert r == ExtractedWith(tex, ms[1..], keep, cmds);
        ExtractedAdds(tex, ms[1..], keep, cmds);
      }
    }
  }

  /** `sp` covers the span of one of the matches `ms`. */
  predicate FromMatch(ms: seq<Match>, sp: Span) {
    exists i :: 0 <= i < |ms| && ms[i].start == sp.start && ms[i].end == sp.end
  }

  /** Every span the walk appends covers one of the matches. */
  lemma {:induction false} ExtractedFrom(tex: string, ms: seq<Match>, keep: Keep, cmds: seq<Span>)
    ensures var r := ExtractedWith(tex, ms, keep, cmds);
      forall k :: |cmds| <= k < |r| ==> FromMatch(ms, r[k])
    decreases |ms|
  {
    if ms != [] {
      var m := ms[0];
      var r := ExtractedWith(tex, ms, keep, cmds);
      var c2 := if keep(m.start, m.end, cmds) then cmds + [SpanOf(tex, m.start, m.end)] else cmds;
      assert r == ExtractedWith(tex, ms[1..], keep, c2);
      ExtractedFrom(tex, ms[1..], keep, c2);
      ExtractedPrefix(tex, ms[1..], keep, c2);
      forall k | |cmds| <= k < |r|
        ensures FromMatch(ms, r[k])
      {
        if k < |c2| {
          assert r[k] == r[..|c2|][k] == c2[k] == SpanOf(tex, m.start, m.end);
          assert ms[0] == m;
        } else {
          assert FromMatch(ms[1..], r[k]);
          var i :| 0 <= i < |ms[1..]| && ms[1..][i].start == r[k].start && ms[1..][i].end == r[k].end;
          assert ms[i + 1] == ms[1..][i];
        }
      }
    }
  }

  /** Spans kept from ordered matches are ordered, in match order. */
  lemma {:induction false} ExtractedOrdered(tex: string, ms: seq<Match>, keep: Keep, cmds: seq<Span>, from: nat)
    requires Ordered(tex, ms, from) && SpansOrdered(cmds)
    requires forall k :: 0 <= k < |cmds| ==> cmds[k].end <= from
    ensures SpansOrdered(ExtractedWith(tex, ms, keep, cmds))
    decreases |ms|
  {
    if ms != [] {
      var m := ms[0];
      assert from <= m.start < m.end;
      assert Ordered(tex, ms[1..], m.end) by {
        forall i | 0 <= i < |ms| - 1 ensures m.end <= ms[1..][i].start {
          assert ms[1..][i] == ms[i + 1];
        }
      }
      if keep(m.start, m.end, cmds) {
        var sp := SpanOf(tex, m.start, m.end);
        var c2 := cmds + [sp];
        forall k, j | 0 <= k < j < |c2| ensures c2[k].end <= c2[j].start {
          if j == |cmds| {
            assert c2[k] == cmds[k];
          } else {
            assert c2[k] == cmds[k] && c2[j] == cmds[j];
          }
        }
        forall k | 0 <= k < |c2| ensures c2[k].end <= m.end {
          if k < |cmds| { assert c2[k] == cmds[k]; }
        }
        ExtractedOrdered(tex, ms[1..], keep, c2, m.end);
      } else {
        ExtractedOrdered(tex, ms[1..], keep, cmds, m.end);
      }
    }
  }

  /** What a walk from no spans over the matches `ms` returns, whatever decides. */
  lemma WalkShape(tex: string, ms: seq<Match>, keep: Keep)
    requires Ordered(tex, ms, 0)
    ensures var r := ExtractedWith(tex, ms, keep, []);
      && SpansOrdered(r)
      && (forall k :: 0 <= k < |r| ==> KeptAt(tex, keep, r, k))
      && (forall k :: 0 <= k < |r| ==> FromMatch(ms, r[k]) && r[k].end <= |tex| && r[k].text == tex[r[k].start..r[k].end])
  {
    ExtractedAdds(tex, ms, keep, []);
    ExtractedFrom(tex, ms, keep, []);
    ExtractedOrdered(tex, ms, keep, [], 0);
    var r := ExtractedWith(tex, ms, keep, []);
    assert forall k :: 0 <= k < |ExtractedWith(tex, ms, keep, [])| ==> KeptAt(tex, keep, ExtractedWith(tex, ms, keep, []), k);
    forall k | 0 <= k < |r|
      ensures r[k].end <= |tex| && r[k].text == tex[r[k].start..r[k].end]
    {
      assert FromMatch(ms, r[k]) && KeptAt(tex, keep, r, k);
      var i :| 0 <= i < |ms| && ms[i].start == r[k].start && ms[i].end == r[k].end;
    }
  }

  /**
    * The spans `_extract_authorship_from_tex` returns: each covers a match
    * of the pattern and holds the matched text, was accepted (its argument
    * is not empty, and neither an environment nor an earlier kept span
    * encloses it), and they are ordered as the matches are.
    */
  lemma ExtractAuthorshipShape(pattern: MatchAt, tex: string, envs: seq<Span>)
    ensures var r := Extracted(tex, FindIter(pattern, tex), envs, []);
      && SpansOrdered(r)
      && (forall k :: 0 <= k < |r| ==> Accepted(tex, r[k].start, r[k].end, envs, r[..k]))
      && (forall k :: 0 <= k < |r| ==> r[k].end <= |tex| && r[k].text == tex[r[k].start..r[k].end])
      && (forall k :: 0 <= k < |r| ==> FromMatch(FindIter(pattern, tex), r[k]))
  {
    var ms := FindIter(pattern, tex);
    var keep := AcceptedIn(tex, envs);
    WalkShape(tex, ms, keep);
    var r := ExtractedWith(tex, ms, keep, []);
    forall k | 0 <= k < |r|
      ensures Accepted(tex, r[k].start, r[k].end, envs, r[..k])
    {
      assert KeptAt(tex, keep, r, k);
    }
  }

  /** The environment spans and the bare commands none of them encloses. */
  function AuthorshipSpans(tex: string): seq<Span> {
    var envs := Extracted(tex, FindIter(AuthorshipEnv, tex), [], []);
    envs + Extracted(tex, FindIter(Authorship, tex), envs, [])
  }

  /** The commands of one text, each paired with its normalised text. */
  function TexCmds(P: Patterns, tex: string): (r: seq<LatexCmd>)
    ensures |r| == |AuthorshipSpans(tex)|
    ensures forall k :: 0 <= k < |r| ==> r[k].original == AuthorshipSpans(tex)[k].text
  {
    var spans := AuthorshipSpans(tex);
    seq(|spans|, k requires 0 <= k < |spans| => LatexCmd(spans[k].text, SanitizeLatexCmd(P, spans[k].text)))
  }

  /**
    * `_extract_authorship_cmds_from_tex`: environments first, then the bare
    * commands outside them, each paired with its normalised text.
    */
  method ExtractAuthorshipCmdsFromTex(P: Patterns, tex: string) returns (r: seq<LatexCmd>)
    ensures r == TexCmds(P, tex)
    ensures |r| == |AuthorshipSpans(tex)|
    ensures forall k :: 0 <= k < |r| ==>
      r[k] == LatexCmd(AuthorshipSpans(tex)[k].text, SanitizeLatexCmd(P, AuthorshipSpans(tex)[k].text))
  {
    var cmds := ExtractAuthorshipFromTex(AuthorshipEnv, tex, []);
    var more := ExtractAuthorshipFromTex(Authorship, tex, cmds);
    cmds := cmds + more;
    r := seq(|cmds|, k requires 0 <= k < |cmds| => LatexCmd(cmds[k].text, SanitizeLatexCmd(P, cmds[k].text)));
  }

  /**
    * No bare command kept by `_extract_authorship_cmds_from_tex` lies
    * strictly inside one of the environments kept before it.
    */
  lemma CommandsOutsideEnvironments(tex: string)
    ensures var envs := Extracted(tex, FindIter(AuthorshipEnv, tex), [], []);
      var spans := AuthorshipSpans(tex);
      forall k, e :: |envs| <= k < |spans| && 0 <= e < |envs| ==> !Encloses(envs[e], spans[k].start, spans[k].end)
  {
    var envs := Extracted(tex, FindIter(AuthorshipEnv, tex), [], []);
    var cmds := Extracted(tex, FindIter(Authorship, tex), envs, []);
    ExtractAuthorshipShape(AuthorshipEnv, tex, []);
    ExtractAuthorshipShape(Authorship, tex, envs);
    forall k | 0 <= k < |cmds| ensures cmds[k].start <= cmds[k].end {
      assert cmds[k].end <= |tex| && cmds[k].text == tex[cmds[k].start..cmds[k].end];
    }
    NoneEnclosed(tex, envs, cmds);
    var spans := AuthorshipSpans(tex);
    assert spans == envs + cmds;
    forall k, e | |envs| <= k < |spans| && 0 <= e < |envs| ensures !Encloses(envs[e], spans[k].start, spans[k].end) {
      assert spans[k] == cmds[k - |envs|];
    }
  }

  /** Spans accepted against ordered environments lie inside none of them. */
  lemma NoneEnclosed(tex: string, envs: seq<Span>, cmds: seq<Span>)
    requires SpansOrdered(envs)
    requires forall k :: 0 <= k < |cmds| ==> Accepted(tex, cmds[k].start, cmds[k].end, envs, cmds[..k])
    requires forall k :: 0 <= k < |cmds| ==> cmds[k].start <= cmds[k].end
    ensures forall k, e :: 0 <= k < |cmds| && 0 <= e < |envs| ==> !Encloses(envs[e], cmds[k].start, cmds[k].end)
  {
    forall k, e | 0 <= k < |cmds| && 0 <= e < |envs| ensures !Encloses(envs[e], cmds[k].start, cmds[k].end) {
      EnclosedScanComplete(envs, cmds[k].start, cmds[k].end);
    }
  }

  // ----------------------------------------------------------------------
  // Document class and files
  // ----------------------------------------------------------------------

  /** `_extract_documentclass`: the stripped content of the first `\documentclass{…}`, or the empty text. */
  function ExtractDocumentclass(tex: string): (r: string)
    ensures Search(LatexDocumentclass, tex).None? ==> r == ""
    ensures Trimmed(r)
  {
    match Search(LatexDocumentclass, tex)
    case None => ""
    case Some(m) => Strip(Slice(m.g1, 1, -1))
  }

  /** The group `\\documentclass` captures is a piece of the text, braces included. */
  lemma DocumentclassGroupInText(tex: string, m: Match)
    requires Search(LatexDocumentclass, tex) == Some(m)
    ensures m.end <= |tex| && exists g :: m.start + 14 <= g && g + 2 <= m.end && m.g1 == tex[g..m.end]
  {
    var d := DocumentclassAt(tex, m.start);
    assert LatexDocumentclass(tex, m.start) == d;
    assert d == Some(m);
    var g :| m.start + 14 <= g < m.end && m.g1 == tex[g..m.end];
    assert |m.g1| >= 2;
  }

  /** The stripped inside of the group `tex[g..e]` is a piece of `tex`. */
  lemma StrippedInsideInText(tex: string, g: nat, e: nat)
    requires g + 2 <= e <= |tex|
    ensures var r := Strip(Slice(tex[g..e], 1, -1));
      exists i :: 0 <= i <= |tex| - |r| && IsSliceAt(tex, r, i)
  {
    SliceOfSlice(tex, g, e, 1, e - g - 1);
    assert Slice(tex[g..e], 1, -1) == tex[g + 1..e - 1];
    StrippedWithin(tex, g + 1, e - 1);
  }

  /** The document class, when there is one, is a piece of the text. */
  lemma DocumentclassFromText(tex: string)
    ensures var r := ExtractDocumentclass(tex);
      r != "" ==> exists i :: 0 <= i <= |tex| - |r| && IsSliceAt(tex, r, i)
  {
    var sr := Search(LatexDocumentclass, tex);
    if sr.Some? {
      var m := sr.value;
      DocumentclassGroupInText(tex, m);
      var g :| m.start + 14 <= g && g + 2 <= m.end && m.g1 == tex[g..m.end];
      StrippedInsideInText(tex, g, m.end);
    }
  }

  /** The text of a file with its comments removed. */
  function Uncommented(tex: string): string {
    RemoveAll(LatexCommentBlock, Cleaned(SplitLinesKeepEnds(tex)))
  }

  /** The document classes one file gives: at most one, non-empty and stripped. */
  function DocumentClasses(t: string): (r: seq<string>)
    ensures |r| <= 1 && forall c :: c in r ==> c != "" && Trimmed(c)
    ensures r == [] <==> Search(LatexDocumentclass, t).None? || ExtractDocumentclass(t) == ""
  {
    var dc := ExtractDocumentclass(t);
    if dc != "" then [dc] else []
  }

  /** The data one file adds: nothing for an `%auto-ignore` file, else its non-empty document class and its commands. */
  function FileData(P: Patterns, tex: string): ExtCmdData {
    if tex == "%auto-ignore" then ExtCmdData([], [])
    else
      var t := Uncommented(tex);
      ExtCmdData(DocumentClasses(t), TexCmds(P, t))
  }

  /** The data of two runs of files glued together. */
  function Merge(a: ExtCmdData, b: ExtCmdData): ExtCmdData {
    ExtCmdData(a.documentclasses + b.documentclasses, a.cmds + b.cmds)
  }

  /** The data of the files `texs`, in order, when `file` gives the data of one file. */
  function FoldData(texs: seq<string>, file: string -> ExtCmdData): ExtCmdData
    decreases |texs|
  {
    if texs == [] then ExtCmdData([], [])
    else Merge(FoldData(texs[..|texs| - 1], file), file(texs[|texs| - 1]))
  }

  /** The data of the files `texs` of one paper. */
  function FilesData(P: Patterns, texs: seq<string>): ExtCmdData {
    FoldData(texs, t => FileData(P, t))
  }

  /** The per-file body of `_extract_authorship_cmds_from_files`. */
  method ExtractFromFile(P: Patterns, tex: string) returns (d: ExtCmdData)
    ensures d == FileData(P, tex)
  {
    if tex == "%auto-ignore" {
      return ExtCmdData([], []);
    }
    var t := RemoveComments(tex);
    var documentclass := ExtractDocumentclass(t);
    var documentclasses := if documentclass != "" then [documentclass] else [];
    var found := ExtractAuthorshipCmdsFromTex(P, t);
    d := ExtCmdData(documentclasses, found);
  }

  /**
    * `_extract_authorship_cmds_from_files` over the texts of a paper's TeX
    * files: a file that is exactly `%auto-ignore` is skipped; the others
    * lose their comments, give their non-empty document class and their
    * commands.
    */
  method ExtractAuthorshipCmdsFromFiles(P: Patterns, texs: seq<string>) returns (data: ExtCmdData)
    ensures data == FilesData(P, texs)
  {
    var cmds: seq<LatexCmd> := [];
    var documentclasses: seq<string> := [];
    var i := 0;
    while i < |texs|
      invariant 0 <= i <= |texs|
      invariant ExtCmdData(documentclasses, cmds) == FilesData(P, texs[..i])
    {
      var d := ExtractFromFile(P, texs[i]);
      assert texs[..i + 1][..i] == texs[..i];
      documentclasses := documentclasses + d.documentclasses;
      cmds := cmds + d.cmds;
      i := i + 1;
    }
    assert texs[..|texs|] == texs;
    data := ExtCmdData(documentclasses, cmds);
  }

  /** One file gives at most one document class, non-empty and stripped. */
  lemma FileDataClass(P: Patterns, tex: string)
    ensures var d := FileData(P, tex);
      |d.documentclasses| <= 1 && forall c :: c in d.documentclasses ==> c != "" && Trimmed(c)
  {
    if tex != "%auto-ignore" {
      assert FileData(P, tex).documentclasses == DocumentClasses(Uncommented(tex));
    }
  }

  /** Every class of the folded data comes from one of the files, at most one per file. */
  lemma {:induction false} FoldDataClasses(texs: seq<string>, file: string -> ExtCmdData)
    requires forall t :: |file(t).documentclasses| <= 1
    ensures var d := FoldData(texs, file);
      |d.documentclasses| <= |texs|
      && forall c :: c in d.documentclasses ==> exists t :: t in texs && c in file(t).documentclasses
    decreases |texs|
  {
    if texs != [] {
      var init := texs[..|texs| - 1];
      var last := texs[|texs| - 1];
      FoldDataClasses(init, file);
      forall c | c in FoldData(texs, file).documentclasses
        ensures exists t :: t in texs && c in file(t).documentclasses
      {
        if c in FoldData(init, file).documentclasses {
          var t :| t in init && c in file(t).documentclasses;
          assert t in texs;
        } else {
          assert last in texs;
        }
      }
    }
  }

  /**
    * Every document class collected is non-empty and stripped, and there is
    * at most one per file.
    */
  lemma FilesDataClasses(P: Patterns, texs: seq<string>)
    ensures var d := FilesData(P, texs);
      |d.documentclasses| <= |texs| && forall c :: c in d.documentclasses ==> c != "" && Trimmed(c)
  {
    var file := (t: string) => FileData(P, t);
    forall t ensures |file(t).documentclasses| <= 1 {
      FileDataClass(P, t);
    }
    FoldDataClasses(texs, file);
    forall c | c in FilesData(P, texs).documentclasses ensures c != "" && Trimmed(c) {
      var t :| t in texs && c in file(t).documentclasses;
      FileDataClass(P, t);
    }
  }

  /**
    * The files are handled one by one and independently: the data of a
    * sequence of files is the data of its first part followed by that of the
    * rest.
    */
  lemma {:induction false} FoldDataAppend(a: seq<string>, b: seq<string>, file: string -> ExtCmdData)
    ensures FoldData(a + b, file) == Merge(FoldData(a, file), FoldData(b, file))
    decreases |b|
  {
    if b == [] {
      assert a + b == a;
    } else {
      var b0 := b[..|b| - 1];
      var ab := a + b;
      assert ab[..|ab| - 1] == a + b0;
      assert ab[|ab| - 1] == b[|b| - 1];
      FoldDataAppend(a, b0, file);
      var fa, fb0, f := FoldData(a, file), FoldData(b0, file), file(b[|b| - 1]);
      assert fa.documentclasses + fb0.documentclasses + f.documentclasses == fa.documentclasses + (fb0.documentclasses + f.documentclasses);
      assert fa.cmds + fb0.cmds + f.cmds == fa.cmds + (fb0.cmds + f.cmds);
    }
  }

  lemma FilesDataAppend(P: Patterns, a: seq<string>, b: seq<string>)
    ensures FilesData(P, a + b) == Merge(FilesData(P, a), FilesData(P, b))
  {
    FoldDataAppend(a, b, t => FileData(P, t));
  }
}
