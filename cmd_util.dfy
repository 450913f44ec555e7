/**
  * The helpers every extraction scheme shares: finding the positions of a
  * command, splitting at them, decomposing reference ids, joining authors
  * to affiliations by id, and the `sanitize` clean-up of names.
  */
module CmdUtil {
  import opened PyStr
  import opened Regex
  import opened RegExp
  import opened Patterns
  import opened Authors
  import Latex

  // ----------------------------------------------------------------------
  // find_all_indices
  // ----------------------------------------------------------------------

  /**
    * The positions `s.find(t, pos)` reports one after the other when each
    * search resumes `|t|` characters after the previous hit.
    */
  function IndicesFrom(s: string, t: string, pos: nat): seq<nat>
    requires |t| > 0 && pos <= |s|
    decreases |s| - pos
  {
    var p := FindFrom(s, t, pos);
    if p == -1 then [] else [p] + IndicesFrom(s, t, p + |t|)
  }

  /**
    * Every reported position is an occurrence at or after `pos`, and each
    * next one begins at least `|t|` after the previous one.
    */
  lemma {:induction false} IndicesFromSound(s: string, t: string, pos: nat)
    requires |t| > 0 && pos <= |s|
    ensures var r := IndicesFrom(s, t, pos);
      && (forall k :: 0 <= k < |r| ==> pos <= r[k] && OccursAt(s, t, r[k]))
      && Spread(r, |t|)
    decreases |s| - pos
  {
    var p := FindFrom(s, t, pos);
    if p != -1 {
      IndicesFromSound(s, t, p + |t|);
    }
  }

  /** Increasing positions, each at least `n` after the one before. */
  predicate Spread(r: seq<nat>, n: nat) {
    forall k :: 0 <= k < |r| - 1 ==> r[k] + n <= r[k + 1]
  }

  /**
    * `find_all_indices(search_term, text)`: nothing when either is empty,
    * otherwise the case-insensitive occurrences found left to right without
    * overlap.
    */
  function AllIndices(term: string, text: string): (r: seq<nat>)
    ensures term == "" || text == "" ==> r == []
    ensures forall k :: 0 <= k < |r| ==> OccursAt(Lower(text), Lower(term), r[k])
    ensures Spread(r, |term|)
  {
    if term == "" || text == "" then []
    else
      IndicesFromSound(Lower(text), Lower(term), 0);
      IndicesFrom(Lower(text), Lower(term), 0)
  }

  /** `find_all_indices`. */
  method FindAllIndices(term: string, text: string) returns (indices: seq<nat>)
    ensures indices == AllIndices(term, text)
  {
    if term == "" || text == "" {
      return [];
    }
    indices := SearchLoop(Lower(text), Lower(term));
  }

  /** The `pos` loop of `find_all_indices` over the lowered texts. */
  method SearchLoop(s: string, t: string) returns (indices: seq<nat>)
    requires |t| > 0
    ensures indices == IndicesFrom(s, t, 0)
  {
    ghost var all := IndicesFrom(s, t, 0);
    indices := [];
    var pos: nat := 0;
    assert [] + IndicesFrom(s, t, 0) == all;
    while true
      invariant pos <= |s|
      invariant FoundBefore(s, t, pos, indices, all)
      decreases |s| - pos
    {
      var p := FindNext(s, t, pos, indices, all);
      if p == -1 {
        break;
      }
      indices := indices + [p];
      pos := p + |t|;
    }
  }

  /** `s.find(t, pos)` inside the loop. */
  method FindNext(s: string, t: string, pos: nat, indices: seq<nat>, ghost all: seq<nat>) returns (p: int)
    requires |t| > 0 && pos <= |s| && FoundBefore(s, t, pos, indices, all)
    ensures p == -1 ==> indices == all
    ensures p != -1 ==> pos <= p && p + |t| <= |s| && FoundBefore(s, t, p + |t|, indices + [p], all)
  {
    p := FindFrom(s, t, pos);
    SearchStep(s, t, pos, indices, all);
  }

  /** The loop has found `indices` before `pos`: with the positions from `pos` on they make up `all`. */
  predicate FoundBefore(s: string, t: string, pos: nat, indices: seq<nat>, all: seq<nat>)
    requires |t| > 0 && pos <= |s|
  {
    indices + IndicesFrom(s, t, pos) == all
  }

  /** One search of the loop: a miss ends it with every position found, a hit is one more position. */
  lemma SearchStep(s: string, t: string, pos: nat, indices: seq<nat>, all: seq<nat>)
    requires |t| > 0 && pos <= |s| && FoundBefore(s, t, pos, indices, all)
    ensures var p := FindFrom(s, t, pos);
      && (p == -1 ==> indices == all)
      && (p != -1 ==> pos <= p && p + |t| <= |s| && FoundBefore(s, t, p + |t|, indices + [p], all))
  {
    var p := FindFrom(s, t, pos);
    IndicesStep(s, t, pos);
    if p == -1 {
      assert indices + [] == indices;
    } else {
      var rest := IndicesFrom(s, t, p + |t|);
      assert indices + ([p] + rest) == (indices + [p]) + rest;
    }
  }

  /** One search of the loop. */
  lemma IndicesStep(s: string, t: string, pos: nat)
    requires |t| > 0 && pos <= |s|
    ensures var p := FindFrom(s, t, pos);
      && (p == -1 ==> IndicesFrom(s, t, pos) == [])
      && (p != -1 ==> pos <= p && p + |t| <= |s| && IndicesFrom(s, t, pos) == [p] + IndicesFrom(s, t, p + |t|))
  {
  }

  /**
    * Nothing is missed: every case-insensitive occurrence of the term at or
    * after `pos` is one of the positions found or overlaps one of them.
    */
  lemma {:induction false} IndicesCover(s: string, t: string, pos: nat, k: nat)
    requires |t| > 0 && pos <= |s|
    requires pos <= k && OccursAt(s, t, k)
    ensures exists j :: 0 <= j < |IndicesFrom(s, t, pos)| && IndicesFrom(s, t, pos)[j] <= k < IndicesFrom(s, t, pos)[j] + |t|
    decreases |s| - pos
  {
    var r := IndicesFrom(s, t, pos);
    var p := FindFrom(s, t, pos);
    assert p != -1 && p <= k;
    if k < p + |t| {
      assert r[0] == p;
    } else {
      IndicesCover(s, t, p + |t|, k);
      var rest := IndicesFrom(s, t, p + |t|);
      var j :| 0 <= j < |rest| && rest[j] <= k < rest[j] + |t|;
      assert r[j + 1] == rest[j];
    }
  }

  // ----------------------------------------------------------------------
  // split_ref_commands and split_on_commands
  // ----------------------------------------------------------------------

  /** The found positions, then the end of the text. */
  function Bounds(term: string, text: string): (b: seq<nat>)
    ensures |b| == |AllIndices(term, text)| + 1
    ensures forall k :: 0 <= k < |b| ==> b[k] <= |text|
    ensures forall k :: 0 <= k < |b| - 1 ==> b[k] < b[k + 1]
  {
    var idx := AllIndices(term, text);
    var b := idx + [|text|];
    forall k | 0 <= k < |b| - 1 ensures b[k] < b[k + 1] && b[k] <= |text| {
      assert OccursAt(Lower(text), Lower(term), idx[k]);
    }
    b
  }

  /**
    * `split_ref_commands(command, text)`: the stripped text from each
    * occurrence of the command up to the next one or the end; the text
    * before the first occurrence is dropped.
    */
  function SplitRefCommands(command: string, text: string): (r: seq<string>)
    ensures |r| == |AllIndices(command, text)|
  {
    var b := Bounds(command, text);
    seq(|b| - 1, k requires 0 <= k < |b| - 1 => Strip(text[b[k]..b[k + 1]]))
  }

  /** A character and its lower-case form are both whitespace or both not. */
  lemma LowerCharSpace(c: char)
    ensures IsSpace(LowerChar(c)) <==> IsSpace(c)
  {
  }

  /** A text that starts and ends with a non-blank `w` keeps `w` in front under `strip`. */
  lemma StripKeepsHead(s: string, w: string)
    requires |w| > 0 && StartsWith(s, w) && !IsSpace(w[0]) && !IsSpace(w[|w| - 1])
    ensures StartsWith(Strip(s), w)
  {
    var l := LStrip(s);
    assert l == s;
    var r := RStrip(l);
    assert s[|w| - 1] == w[|w| - 1];
    assert |w| <= |r|;
    assert r[..|w|] == s[..|r|][..|w|] == w;
  }

  /** A piece of text that starts at an occurrence of a command still starts with it once stripped. */
  lemma PieceStartsWithCommand(command: string, text: string, i: nat, j: nat)
    requires |command| > 0 && !IsSpace(command[0]) && !IsSpace(command[|command| - 1])
    requires OccursAt(Lower(text), Lower(command), i) && i + |command| <= j <= |text|
    ensures StartsWith(Lower(Strip(text[i..j])), Lower(command))
  {
    var piece := text[i..j];
    var n := |command|;
    var w := piece[..n];
    LowerWindow(command, text, i, j);
    SameEnds(w, command);
    StripKeepsHead(piece, w);
    LowerPrefix(Strip(piece), n);
  }

  /** The window of `text` at a case-insensitive occurrence of `command` lowers to the lowered command. */
  lemma LowerWindow(command: string, text: string, i: nat, j: nat)
    requires OccursAt(Lower(text), Lower(command), i) && i + |command| <= j <= |text|
    ensures Lower(text[i..j][..|command|]) == Lower(command)
  {
    var n := |command|;
    var w := text[i..j][..n];
    forall x | 0 <= x < n ensures Lower(w)[x] == Lower(command)[x] {
      assert w[x] == text[i + x];
      assert Lower(text)[i..i + n][x] == Lower(text)[i + x];
    }
  }

  /** Texts that lower alike agree on whether their ends are whitespace. */
  lemma SameEnds(w: string, command: string)
    requires |command| > 0 && Lower(w) == Lower(command)
    ensures !IsSpace(command[0]) ==> !IsSpace(w[0])
    ensures !IsSpace(command[|command| - 1]) ==> !IsSpace(w[|w| - 1])
  {
    var n := |command|;
    assert Lower(w)[0] == Lower(command)[0] && Lower(w)[n - 1] == Lower(command)[n - 1];
    LowerCharSpace(w[0]);
    LowerCharSpace(command[0]);
    LowerCharSpace(w[n - 1]);
    LowerCharSpace(command[n - 1]);
  }

  /** Lowering commutes with taking a prefix. */
  lemma LowerPrefix(r: string, n: nat)
    requires n <= |r|
    ensures Lower(r)[..n] == Lower(r[..n])
  {
  }

  /**
    * Each part `split_ref_commands` returns begins with the command (up to
    * ASCII case), one part per occurrence, when the command has no
    * whitespace at either end; without an occurrence there are no parts.
    */
  lemma SplitRefCommandsParts(command: string, text: string)
    requires |command| > 0 && !IsSpace(command[0]) && !IsSpace(command[|command| - 1])
    ensures var r := SplitRefCommands(command, text);
      (AllIndices(command, text) == [] ==> r == [])
      && forall k :: 0 <= k < |r| ==> StartsWith(Lower(r[k]), Lower(command))
  {
    var r := SplitRefCommands(command, text);
    forall k | 0 <= k < |r| ensures StartsWith(Lower(r[k]), Lower(command)) {
      PartStartsWithCommand(command, text, k);
    }
  }

  /** Part `k` runs from occurrence `k` to at least one command length later, and so begins with the command. */
  lemma PartStartsWithCommand(command: string, text: string, k: nat)
    requires |command| > 0 && !IsSpace(command[0]) && !IsSpace(command[|command| - 1])
    requires k < |AllIndices(command, text)|
    ensures var b := Bounds(command, text);
      b[k] == AllIndices(command, text)[k]
      && b[k] + |command| <= b[k + 1]
      && StartsWith(Lower(SplitRefCommands(command, text)[k]), Lower(command))
  {
    var b := Bounds(command, text);
    BoundsGap(command, text, k);
    PieceStartsWithCommand(command, text, b[k], b[k + 1]);
  }

  /** Bound `k` is occurrence `k`, and the next bound lies at least one command length later. */
  lemma BoundsGap(command: string, text: string, k: nat)
    requires k < |AllIndices(command, text)|
    ensures var b := Bounds(command, text);
      b[k] == AllIndices(command, text)[k]
      && OccursAt(Lower(text), Lower(command), b[k])
      && b[k] + |command| <= b[k + 1] <= |text|
  {
    var b := Bounds(command, text);
    var idx := AllIndices(command, text);
    assert b == idx + [|text|];
    assert b[k] == idx[k];
    if k + 1 < |idx| {
      assert Spread(idx, |command|);
      assert b[k + 1] == idx[k + 1];
    } else {
      assert b[k + 1] == |text|;
      assert OccursAt(Lower(text), Lower(command), idx[k]);
    }
  }

  /** One part cut at the occurrences of a command: the non-empty stripped pieces, the text before the first one included. */
  function SplitPart(command: string, part: string): (r: seq<string>)
    ensures forall p :: p in r ==> p != "" && Trimmed(p)
  {
    var b := [0] + Bounds(command, part);
    NonEmptyStripped(seq(|b| - 1, k requires 0 <= k < |b| - 1 => Slice(part, b[k], b[k + 1])))
  }

  /** Every part cut at the occurrences of a command, in order. */
  function SplitParts(command: string, parts: seq<string>): (r: seq<string>)
    ensures forall p :: p in r ==> p != "" && Trimmed(p)
    decreases |parts|
  {
    if parts == [] then []
    else SplitParts(command, parts[..|parts| - 1]) + SplitPart(command, parts[|parts| - 1])
  }

  /** The parts after cutting `text` at each command of `commands` in turn. */
  function OnCommands(commands: seq<string>, text: string): seq<string>
    decreases |commands|
  {
    if commands == [] then [text]
    else SplitParts(commands[|commands| - 1], OnCommands(commands[..|commands| - 1], text))
  }

  /** `split_on_commands`: the nested loops rebuilding `parts` per command. */
  method SplitOnCommands(commands: seq<string>, text: string) returns (parts: seq<string>)
    ensures parts == OnCommands(commands, text)
  {
    parts := [text];
    var i := 0;
    while i < |commands|
      invariant 0 <= i <= |commands|
      invariant parts == OnCommands(commands[..i], text)
    {
      OnCommandsStep(commands, text, i);
      parts := SplitAllParts(commands[i], parts);
      i := i + 1;
    }
    assert commands[..|commands|] == commands;
  }

  lemma SplitPartsStep(command: string, parts: seq<string>, j: nat)
    requires j < |parts|
    ensures SplitParts(command, parts[..j + 1]) == SplitParts(command, parts[..j]) + SplitPart(command, parts[j])
  {
    assert parts[..j + 1][..j] == parts[..j];
  }

  lemma OnCommandsStep(commands: seq<string>, text: string, i: nat)
    requires i < |commands|
    ensures OnCommands(commands[..i + 1], text) == SplitParts(commands[i], OnCommands(commands[..i], text))
  {
    assert commands[..i + 1][..i] == commands[..i];
  }

  /** The inner loop of `split_on_commands`: every part cut at one command. */
  method SplitAllParts(command: string, parts: seq<string>) returns (newParts: seq<string>)
    ensures newParts == SplitParts(command, parts)
  {
    newParts := [];
    var j := 0;
    while j < |parts|
      invariant 0 <= j <= |parts|
      invariant newParts == SplitParts(command, parts[..j])
    {
      SplitPartsStep(command, parts, j);
      newParts := newParts + SplitPart(command, parts[j]);
      j := j + 1;
    }
    assert parts[..|parts|] == parts;
  }

  /**
    * After at least one command, `split_on_commands` returns only
    * non-empty, stripped parts; with no command the text comes back as it is.
    */
  lemma OnCommandsClean(commands: seq<string>, text: string)
    ensures commands == [] ==> OnCommands(commands, text) == [text]
    ensures commands != [] ==> forall p :: p in OnCommands(commands, text) ==> p != "" && Trimmed(p)
  {
  }

  /** The text before the first occurrence of a command is kept as its own part when it is not blank. */
  lemma SplitPartKeepsPrefix(command: string, part: string)
    requires AllIndices(command, part) != []
    requires Strip(part[..AllIndices(command, part)[0]]) != ""
    ensures SplitPart(command, part) != []
    ensures SplitPart(command, part)[0] == Strip(part[..AllIndices(command, part)[0]])
  {
    var b := [0] + Bounds(command, part);
    var pieces := seq(|b| - 1, k requires 0 <= k < |b| - 1 => Slice(part, b[k], b[k + 1]));
    assert pieces[0] == part[..AllIndices(command, part)[0]];
  }

  // ----------------------------------------------------------------------
  // split_ref_strings
  // ----------------------------------------------------------------------

  /** `sum([len(cmd) for cmd in commands])`. */
  function SumLengths(cmds: seq<string>): nat {
    if cmds == [] then 0 else |cmds[0]| + SumLengths(cmds[1..])
  }

  /**
    * `rest.replace(cmd, "")` for each command in turn; a `replace` of the
    * empty text by the empty text changes nothing.
    */
  function RemoveEach(s: string, cmds: seq<string>): (r: string)
    ensures |r| <= |s|
    decreases |cmds|
  {
    if cmds == [] then s
    else if cmds[0] == "" then RemoveEach(s, cmds[1..])
    else
      ReplaceByNothingShorter(s, cmds[0]);
      RemoveEach(Replace(s, cmds[0], ""), cmds[1..])
  }

  /** The texts of the math-mode spans `$…$` of a reference, left to right. */
  function MathTexts(ref: string): (r: seq<string>)
    ensures |r| == |FindIter(MathModeContent, ref)|
  {
    var ms := FindIter(MathModeContent, ref);
    seq(|ms|, k requires 0 <= k < |ms| => Text(ref, ms[k]))
  }

  /** An occurrence of `\` in the lowered text is a backslash of the text itself. */
  lemma LoweredBackslash(s: string, k: nat)
    requires OccursAt(Lower(s), "\\", k)
    ensures s[k] == '\\'
  {
    assert Lower(s)[k..k + 1][0] == Lower(s)[k];
  }

  /**
    * When a reference holds a backslash, the first part `split_ref_commands`
    * cuts from it is a non-empty slice of it.
    */
  lemma FirstCommandOccurs(ref: string)
    requires '\\' in ref
    ensures var cmds := SplitRefCommands("\\", ref);
      cmds != [] && cmds[0] != "" && Contains(ref, cmds[0])
  {
    BackslashFound(ref);
    FirstPartOccurs(ref);
  }

  lemma BackslashFound(ref: string)
    requires '\\' in ref
    ensures AllIndices("\\", ref) != []
  {
    var k :| 0 <= k < |ref| && ref[k] == '\\';
    assert OccursAt(Lower(ref), Lower("\\"), k) by {
      assert Lower(ref)[k..k + 1] == [LowerChar(ref[k])];
    }
    IndicesCover(Lower(ref), Lower("\\"), 0, k);
  }

  lemma FirstPartOccurs(ref: string)
    requires AllIndices("\\", ref) != []
    ensures var cmds := SplitRefCommands("\\", ref);
      cmds != [] && cmds[0] != "" && Contains(ref, cmds[0])
  {
    var b := Bounds("\\", ref);
    SplitRefCommandsParts("\\", ref);
    var cmds := SplitRefCommands("\\", ref);
    assert cmds[0] == Strip(ref[b[0]..b[1]]);
    assert StartsWith(Lower(cmds[0]), Lower("\\"));
    StrippedSliceIn(ref, b[0], b[1]);
  }

  /** A stripped slice of a text occurs in it. */
  lemma StrippedSliceIn(s: string, a: nat, b: nat)
    requires a <= b <= |s|
    ensures Contains(s, Strip(s[a..b]))
  {
    var t := s[a..b];
    var c := Strip(t);
    var i :| 0 <= i <= |t| - |c| && IsSliceAt(t, c, i);
    SliceWithin(s, a, b, c, i);
    assert OccursAt(s, c, a + i);
  }

  /** What is left once the commands are deleted and the rest stripped is shorter than the reference. */
  lemma RestShorter(ref: string)
    requires '\\' in ref
    ensures |Strip(RemoveEach(ref, SplitRefCommands("\\", ref)))| < |ref|
  {
    var cmds := SplitRefCommands("\\", ref);
    FirstCommandOccurs(ref);
    ReplaceByNothingShorter(ref, cmds[0]);
    var rest := RemoveEach(ref, cmds);
    assert |rest| < |ref|;
    var i :| 0 <= i <= |rest| - |Strip(rest)| && IsSliceAt(rest, Strip(rest), i);
  }

  /** Deleting every `*` of a text that has one shortens it. */
  lemma StarsGone(ref: string)
    requires '*' in ref
    ensures |Replace(ref, "*", "")| < |ref|
  {
    ContainsChar(ref, '*');
    ReplaceByNothingShorter(ref, "*");
  }

  /**
    * `split_ref_strings`: the branches are tried in a fixed order (one
    * character, comma, `$`, backslash, space, `*`); the `decreases` clause
    * shows that every recursive call gets a strictly shorter text.
    */
  function SplitRefStrings(ref: string): (r: seq<string>)
    decreases |ref|
  {
    if |ref| == 1 then [ref]
    else if ',' in ref then NonEmptyStripped(Split(ref, ","))
    else if '$' in ref then MathTexts(ref)
    else if '\\' in ref then
      var commands := SplitRefCommands("\\", ref);
      if SumLengths(commands) == |Replace(ref, " ", "")| then commands
      else
        RestShorter(ref);
        SplitRefStrings(Strip(RemoveEach(ref, commands))) + commands
    else if ' ' in ref then NonEmptyStripped(Split(ref, " "))
    else if '*' in ref then
      StarsGone(ref);
      ["*"] + SplitRefStrings(Replace(ref, "*", ""))
    else [ref]
  }

  /** The pieces of a split, stripped and non-empty, hold no separator character. */
  lemma PiecesLackChar(ref: string, c: char)
    ensures forall x :: x in NonEmptyStripped(Split(ref, [c])) ==> x != "" && Trimmed(x) && c !in x
  {
    var ps := Split(ref, [c]);
    NonEmptyStrippedFrom(ps);
    SplitPiecesLackSep(ref, [c]);
    forall x | x in NonEmptyStripped(ps) ensures c !in x {
      var i :| 0 <= i < |ps| && x == Strip(ps[i]);
      assert ps[i] in ps;
      StripKeepsAbsent(ps[i], [c]);
      ContainsChar(x, c);
    }
  }

  /** With a comma, the ids are the non-blank comma-separated pieces: none is empty or holds a comma. */
  lemma CommaIds(ref: string)
    requires |ref| != 1 && ',' in ref
    ensures forall x :: x in SplitRefStrings(ref) ==> x != "" && Trimmed(x) && ',' !in x
  {
    PiecesLackChar(ref, ',');
  }

  /** Otherwise, with a `$`, each id is one math-mode span `$…$` of the reference, dollars included. */
  lemma MathIds(ref: string)
    requires |ref| != 1 && ',' !in ref && '$' in ref
    ensures var r := SplitRefStrings(ref);
      forall k :: 0 <= k < |r| ==>
        |r[k]| >= 3 && r[k][0] == '$' && r[k][|r[k]| - 1] == '$' && '$' !in r[k][1..|r[k]| - 1]
        && Contains(ref, r[k])
  {
    MathCase(ref);
    MathTextsShape(ref);
  }

  lemma MathTextsShape(ref: string)
    ensures var r := MathTexts(ref);
      forall k :: 0 <= k < |r| ==>
        |r[k]| >= 3 && r[k][0] == '$' && r[k][|r[k]| - 1] == '$' && '$' !in r[k][1..|r[k]| - 1]
        && Contains(ref, r[k])
  {
    var r := MathTexts(ref);
    forall k | 0 <= k < |r|
      ensures |r[k]| >= 3 && r[k][0] == '$' && r[k][|r[k]| - 1] == '$' && '$' !in r[k][1..|r[k]| - 1]
      ensures Contains(ref, r[k])
    {
      MathIdAt(ref, k);
    }
  }

  lemma MathCase(ref: string)
    requires |ref| != 1 && ',' !in ref && '$' in ref
    ensures SplitRefStrings(ref) == MathTexts(ref)
  {
  }

  lemma MathIdAt(ref: string, k: nat)
    requires k < |MathTexts(ref)|
    ensures var x := MathTexts(ref)[k];
      |x| >= 3 && x[0] == '$' && x[|x| - 1] == '$' && '$' !in x[1..|x| - 1] && Contains(ref, x)
  {
    var ms := FindIter(MathModeContent, ref);
    var x := MathTexts(ref)[k];
    var m := ms[k];
    assert TryAt(MathModeContent, ref, m.start) == Some(m);
    assert MathModeAt(ref, m.start) == Some(m);
    assert x == ref[m.start..m.end];
    assert x[1..|x| - 1] == m.g1;
    assert OccursAt(ref, x, m.start);
  }

  /**
    * Otherwise, with a backslash, the ids end with the parts cut at each
    * backslash, each of which starts with one.
    */
  lemma BackslashIds(ref: string)
    requires |ref| != 1 && ',' !in ref && '$' !in ref && '\\' in ref
    ensures var r := SplitRefStrings(ref);
      var cmds := SplitRefCommands("\\", ref);
      cmds != [] && |cmds| <= |r| && r[|r| - |cmds|..] == cmds
      && forall k :: 0 <= k < |cmds| ==> cmds[k] != "" && cmds[k][0] == '\\'
  {
    FirstCommandOccurs(ref);
    BackslashTail(ref);
    CommandsStartWithBackslash(ref);
  }

  lemma BackslashTail(ref: string)
    requires |ref| != 1 && ',' !in ref && '$' !in ref && '\\' in ref
    ensures var r := SplitRefStrings(ref);
      var cmds := SplitRefCommands("\\", ref);
      |cmds| <= |r| && r[|r| - |cmds|..] == cmds
  {
    var cmds := SplitRefCommands("\\", ref);
    var r := SplitRefStrings(ref);
    if SumLengths(cmds) == |Replace(ref, " ", "")| {
      assert r == cmds;
    } else {
      var rest := SplitRefStrings(Strip(RemoveEach(ref, cmds)));
      assert r == rest + cmds;
      assert r[|rest|..] == cmds;
    }
  }

  /** Every part `split_ref_commands` cuts at backslashes starts with one. */
  lemma CommandsStartWithBackslash(ref: string)
    ensures var cmds := SplitRefCommands("\\", ref);
      forall k :: 0 <= k < |cmds| ==> cmds[k] != "" && cmds[k][0] == '\\'
  {
    SplitRefCommandsParts("\\", ref);
    var cmds := SplitRefCommands("\\", ref);
    assert Lower("\\") == "\\";
    forall k | 0 <= k < |cmds| ensures cmds[k] != "" && cmds[k][0] == '\\' {
      assert StartsWith(Lower(cmds[k]), "\\");
      assert OccursAt(Lower(cmds[k]), "\\", 0);
      LoweredBackslash(cmds[k], 0);
    }
  }

  /** Otherwise, with a space, the ids are the non-blank space-separated pieces: none is empty or holds a space. */
  lemma SpaceIds(ref: string)
    requires |ref| != 1 && ',' !in ref && '$' !in ref && '\\' !in ref && ' ' in ref
    ensures forall x :: x in SplitRefStrings(ref) ==> x != "" && Trimmed(x) && ' ' !in x
  {
    PiecesLackChar(ref, ' ');
  }

  /** Otherwise, with a `*`, the ids start with `"*"`, followed by the ids of the text without stars. */
  lemma StarIds(ref: string)
    requires |ref| != 1 && ',' !in ref && '$' !in ref && '\\' !in ref && ' ' !in ref && '*' in ref
    ensures var r := SplitRefStrings(ref);
      r != [] && r[0] == "*" && r[1..] == SplitRefStrings(RemoveChar(ref, '*'))
  {
    ReplaceCharByNothing(ref, '*');
  }

  /** A reference of one character, or with none of `, $ \ space *`, is one id: itself. */
  lemma PlainId(ref: string)
    requires |ref| == 1 || forall c :: c in ref ==> c !in {',', '$', '\\', ' ', '*'}
    ensures SplitRefStrings(ref) == [ref]
  {
  }

  /**
    * When the backslash parts do not cover the reference and nothing but
    * whitespace is left besides them (a line break after the last part,
    * say), the first id is the empty text.
    */
  lemma EmptyIdInFront(ref: string)
    requires |ref| != 1 && ',' !in ref && '$' !in ref && '\\' in ref
    requires SumLengths(SplitRefCommands("\\", ref)) != |Replace(ref, " ", "")|
    requires Strip(RemoveEach(ref, SplitRefCommands("\\", ref))) == ""
    ensures SplitRefStrings(ref)[0] == ""
  {
    assert SplitRefStrings("") == [""];
  }

  // ----------------------------------------------------------------------
  // sanitize
  // ----------------------------------------------------------------------

  /** The characters `_remove_leftover_latex_special_chars` deletes. */
  const SpecialChars: set<char> := {'$', '{', '}', '[', ']', '^', '\\'}

  /** `_remove_leftover_latex_special_chars`: seven `replace(c, "")` calls in a row. */
  function RemoveLeftoverLatexSpecialChars(text: string): string {
    var t1 := Replace(text, "$", "");
    var t2 := Replace(t1, "{", "");
    var t3 := Replace(t2, "}", "");
    var t4 := Replace(t3, "[", "");
    var t5 := Replace(t4, "]", "");
    var t6 := Replace(t5, "^", "");
    Replace(t6, "\\", "")
  }

  /**
    * The seven deletions delete exactly the special characters: the result
    * is the input with those characters left out, so it only deletes and
    * none of them remains.
    */
  lemma SpecialCharsRemoved(text: string)
    ensures RemoveLeftoverLatexSpecialChars(text) == Without(text, SpecialChars)
    ensures forall c :: c in SpecialChars ==> c !in RemoveLeftoverLatexSpecialChars(text)
  {
    var s0: set<char> := {};
    var s1 := s0 + {'$'};
    var s2 := s1 + {'{'};
    var s3 := s2 + {'}'};
    var s4 := s3 + {'['};
    var s5 := s4 + {']'};
    var s6 := s5 + {'^'};
    var s7 := s6 + {'\\'};
    var t1 := Replace(text, "$", "");
    assert t1 == Without(text, s1) by { WithoutNothing(text); DeleteOneMore(text, text, s0, '$'); }
    var t2 := Replace(t1, "{", "");
    assert t2 == Without(text, s2) by { DeleteOneMore(text, t1, s1, '{'); }
    var t3 := Replace(t2, "}", "");
    assert t3 == Without(text, s3) by { DeleteOneMore(text, t2, s2, '}'); }
    var t4 := Replace(t3, "[", "");
    assert t4 == Without(text, s4) by { DeleteOneMore(text, t3, s3, '['); }
    var t5 := Replace(t4, "]", "");
    assert t5 == Without(text, s5) by { DeleteOneMore(text, t4, s4, ']'); }
    var t6 := Replace(t5, "^", "");
    assert t6 == Without(text, s6) by { DeleteOneMore(text, t5, s5, '^'); }
    assert Replace(t6, "\\", "") == Without(text, s7) by { DeleteOneMore(text, t6, s6, '\\'); }
    assert s7 == SpecialChars;
  }

  /** One more `replace(c, "")` on the text without `cs` gives the text without `cs` and `c`. */
  lemma DeleteOneMore(text: string, w: string, cs: set<char>, c: char)
    requires w == Without(text, cs)
    ensures Replace(w, [c], "") == Without(text, cs + {c})
  {
    ReplaceCharByNothing(w, c);
    RemoveCharWithout(text, cs, c);
  }

  /**
    * `_remove_separators`: strip commas and spaces, delete the separator
    * commands, strip, then drop a leading `and ` and a trailing ` and`
    * (either case).
    */
  function RemoveSeparators(text: string): string {
    var t := Strip(RemoveAll(LatexSeparatorsCmdsOnly, StripChars(text, {',', ' '})));
    var t1 := if StartsWith(Lower(t), "and ") then t[4..] else t;
    if EndsWith(Lower(t1), " and") then t1[..|t1| - 4] else t1
  }

  /**
    * `_remove_leftover_commands`: `\author{…}` and `\institution{…}` are
    * replaced by their brace group, then six kinds of command are deleted
    * with their argument.
    */
  function RemoveLeftoverCommands(text: string): string {
    var t1 := Sub(text, FindIter(AuthorContent, text), (m: Match) => m.g1);
    var t2 := Sub(t1, FindIter(InstitutionContent, t1), (m: Match) => m.g1);
    var t3 := RemoveAll(InstContent, t2);
    var t4 := RemoveAll(ThanksContent, t3);
    var t5 := RemoveAll(FootnoteContent, t4);
    var t6 := RemoveAll(FootnotemarkContent, t5);
    var t7 := RemoveAll(TitlenoteContent, t6);
    RemoveAll(TextsuperscriptContent, t7)
  }

  /** The punctuation `sanitize` strips from both ends. */
  const Punctuation: set<char> := {',', '.', ';', ':', ' '}

  /**
    * `sanitize`: whatever the regular expressions do, the result has none
    * of the special characters, no whitespace run and no whitespace at
    * either end.
    */
  function Sanitize(P: Patterns, text: string): (r: string)
    ensures forall c :: c in SpecialChars ==> c !in r
    ensures SingleSpaced(r) && Trimmed(r)
  {
    var t1 := RemoveLeftoverCommands(RemoveSeparators(text));
    var t2 := RemoveAll(P.email, t1);
    var t3 := Replace(t2, "\\\\", " ");
    var t4 := RemoveLeftoverLatexSpecialChars(t3);
    var t5 := StripChars(t4, Punctuation);
    SanitizeTail(t3);
    Latex.RemoveMultiSpace(t5)
  }

  /** The last two steps of `sanitize` bring no special character back. */
  lemma SanitizeTail(t3: string)
    ensures var r := Latex.RemoveMultiSpace(StripChars(RemoveLeftoverLatexSpecialChars(t3), Punctuation));
      forall c :: c in SpecialChars ==> c !in r
  {
    var t4 := RemoveLeftoverLatexSpecialChars(t3);
    var t5 := StripChars(t4, Punctuation);
    SpecialCharsRemoved(t3);
    forall c | c in SpecialChars ensures c !in Latex.RemoveMultiSpace(t5) {
      ContainsChar(t4, c);
      StripWhereKeepsAbsent(t4, x => x in Punctuation, [c]);
      Latex.MultiSpaceKeepsAbsent(t5, [c]);
      ContainsChar(Latex.RemoveMultiSpace(t5), c);
    }
  }

  // ----------------------------------------------------------------------
  // join_author_and_affil_by_id
  // ----------------------------------------------------------------------

  /** An author as the schemes collect it: a raw name and the reference ids it carries. */
  datatype RefAuthor = RefAuthor(name: string, refIds: seq<string>)

  /** An affiliation as the schemes collect it: a raw name and its reference id. */
  datatype RefAffiliation = RefAffiliation(name: string, refId: string)

  /** `sanitize` under one meaning of the patterns, as a function value. */
  function SanitizeWith(P: Patterns): string -> string {
    (text: string) => Sanitize(P, text)
  }

  /** What one affiliation contributes to an author: its sanitized name, when that is not empty and the ids match. */
  function AttachedOne(san: string -> string, refIds: seq<string>, a: RefAffiliation): seq<string> {
    var n := san(a.name);
    if n != "" && a.refId in refIds then [n] else []
  }

  /** The affiliations attached to an author with the ids `refIds`, in list order. */
  function Attached(san: string -> string, refIds: seq<string>, affs: seq<RefAffiliation>): seq<string>
    decreases |affs|
  {
    if affs == [] then []
    else Attached(san, refIds, affs[..|affs| - 1]) + AttachedOne(san, refIds, affs[|affs| - 1])
  }

  /** The authors with their sanitized names and attached affiliations. */
  function Joined(san: string -> string, authors: seq<RefAuthor>, affs: seq<RefAffiliation>): (r: seq<Author>)
    ensures |r| == |authors|
  {
    seq(|authors|, i requires 0 <= i < |authors| =>
      Author(san(authors[i].name), Attached(san, authors[i].refIds, affs)))
  }

  /**
    * `join_author_and_affil_by_id`: the outer loop over the authors. `san` is
    * `sanitize`, `SanitizeWith(P)`, passed as a value so that the loops need
    * not look inside it.
    */
  method JoinAuthorAndAffilById(san: string -> string, authors: seq<RefAuthor>, affiliations: seq<RefAffiliation>)
    returns (authorAff: seq<Author>)
    ensures authorAff == Joined(san, authors, affiliations)
  {
    authorAff := [];
    var i := 0;
    while i < |authors|
      invariant 0 <= i <= |authors|
      invariant authorAff == Joined(san, authors[..i], affiliations)
    {
      var affs := AttachAffiliations(san, authors[i].refIds, affiliations);
      var name := san(authors[i].name);
      JoinedStep(san, authors, affiliations, i);
      authorAff := authorAff + [Author(name, affs)];
      i := i + 1;
    }
    assert authors[..|authors|] == authors;
  }


  lemma JoinedStep(san: string -> string, authors: seq<RefAuthor>, affs: seq<RefAffiliation>, i: nat)
    requires i < |authors|
    ensures Joined(san, authors[..i + 1], affs)
      == Joined(san, authors[..i], affs) + [Author(san(authors[i].name), Attached(san, authors[i].refIds, affs))]
  {
  }

  /** The inner loop: the affiliations of one author. */
  method AttachAffiliations(san: string -> string, refIds: seq<string>, affiliations: seq<RefAffiliation>)
    returns (affs: seq<string>)
    ensures affs == Attached(san, refIds, affiliations)
  {
    affs := [];
    var j := 0;
    while j < |affiliations|
      invariant 0 <= j <= |affiliations|
      invariant affs == Attached(san, refIds, affiliations[..j])
    {
      AttachedStep(san, refIds, affiliations, j);
      var sanitizedName := san(affiliations[j].name);
      if |sanitizedName| == 0 {
        j := j + 1;
        continue;
      }
      if affiliations[j].refId in refIds {
        affs := affs + [sanitizedName];
      }
      j := j + 1;
    }
    assert affiliations[..|affiliations|] == affiliations;
  }


  lemma AttachedStep(san: string -> string, refIds: seq<string>, affs: seq<RefAffiliation>, j: nat)
    requires j < |affs|
    ensures Attached(san, refIds, affs[..j + 1]) == Attached(san, refIds, affs[..j]) + AttachedOne(san, refIds, affs[j])
  {
    assert affs[..j + 1][..j] == affs[..j];
  }

  /** Attaching over two lists one after the other attaches over each in turn. */
  lemma {:induction false} AttachedAppend(san: string -> string, refIds: seq<string>, a: seq<RefAffiliation>, b: seq<RefAffiliation>)
    ensures Attached(san, refIds, a + b) == Attached(san, refIds, a) + Attached(san, refIds, b)
    decreases |b|
  {
    if b != [] {
      var b' := b[..|b| - 1];
      assert (a + b)[..|a + b| - 1] == a + b';
      AttachedAppend(san, refIds, a, b');
    } else {
      assert a + b == a;
    }
  }

  /**
    * An affiliation name is attached to an author exactly when some
    * affiliation sanitizes to that non-empty name and carries one of the
    * author's ids.
    */
  lemma {:induction false} AttachedIff(san: string -> string, refIds: seq<string>, affs: seq<RefAffiliation>, x: string)
    ensures x in Attached(san, refIds, affs) <==>
      exists j :: 0 <= j < |affs| && x == san(affs[j].name) && x != "" && affs[j].refId in refIds
    decreases |affs|
  {
    if affs != [] {
      var n := |affs| - 1;
      var init := Attached(san, refIds, affs[..n]);
      var last := AttachedOne(san, refIds, affs[n]);
      assert Attached(san, refIds, affs) == init + last;
      AttachedIff(san, refIds, affs[..n], x);
      assert x in init + last <==> x in init || x in last;
      if x in init {
        var j :| 0 <= j < n && x == san(affs[..n][j].name) && x != "" && affs[..n][j].refId in refIds;
        assert affs[..n][j] == affs[j];
      }
      if exists j :: 0 <= j < |affs| && x == san(affs[j].name) && x != "" && affs[j].refId in refIds {
        var j :| 0 <= j < |affs| && x == san(affs[j].name) && x != "" && affs[j].refId in refIds;
        if j < n {
          assert affs[..n][j] == affs[j];
        } else {
          assert x in last;
        }
      }
    }
  }

  /**
    * Reordering the affiliation list only reorders what each author gets:
    * the attached names are the same multiset.
    */
  lemma {:induction false} AttachedPermutation(san: string -> string, refIds: seq<string>, a: seq<RefAffiliation>, b: seq<RefAffiliation>)
    requires multiset(a) == multiset(b)
    ensures multiset(Attached(san, refIds, a)) == multiset(Attached(san, refIds, b))
    decreases |a|
  {
    if a != [] {
      var n := |a| - 1;
      var e := a[n];
      assert e in multiset(b) by { assert e in multiset(a); }
      var j :| 0 <= j < |b| && b[j] == e;
      var b' := b[..j] + b[j + 1..];
      RemoveMatching(a, b, j);
      AttachedPermutation(san, refIds, a[..n], b');
      AttachedWithout(san, refIds, b, j);
      var last := Attached(san, refIds, a[..n]);
      var one := AttachedOne(san, refIds, e);
      assert Attached(san, refIds, a) == last + one;
      assert multiset(last + one) == multiset(last) + multiset(one);
    }
  }

  /** Taking the last element off `a` and a copy of it off `b` keeps them permutations of each other. */
  lemma RemoveMatching<T>(a: seq<T>, b: seq<T>, j: nat)
    requires multiset(a) == multiset(b) && a != [] && j < |b| && b[j] == a[|a| - 1]
    ensures multiset(a[..|a| - 1]) == multiset(b[..j] + b[j + 1..])
  {
    var n := |a| - 1;
    MultisetCut(a, n);
    MultisetCut(b, j);
    assert a[..n] + a[n + 1..] == a[..n];
  }

  /** A sequence holds what it holds without its element at `j`, and that element. */
  lemma MultisetCut<T>(b: seq<T>, j: nat)
    requires j < |b|
    ensures multiset(b[..j] + b[j + 1..]) == multiset(b) - multiset{b[j]}
  {
    assert b == b[..j] + [b[j]] + b[j + 1..];
    assert multiset(b) == multiset(b[..j]) + multiset{b[j]} + multiset(b[j + 1..]);
  }

  /** What one affiliation in the middle of the list contributes, set apart from the rest. */
  lemma AttachedWithout(san: string -> string, refIds: seq<string>, b: seq<RefAffiliation>, j: nat)
    requires j < |b|
    ensures multiset(Attached(san, refIds, b)) ==
      multiset(Attached(san, refIds, b[..j] + b[j + 1..])) + multiset(AttachedOne(san, refIds, b[j]))
  {
    var e := b[j];
    assert b == b[..j] + [e] + b[j + 1..];
    AttachedAppend(san, refIds, b[..j], b[j + 1..]);
    AttachedAppend(san, refIds, b[..j] + [e], b[j + 1..]);
    AttachedAppend(san, refIds, b[..j], [e]);
    assert Attached(san, refIds, [e]) == AttachedOne(san, refIds, e) by {
      assert [e][..0] == [];
    }
  }

  /** `join_author_and_affil_by_id` gives one author per input author, in order, with that author's attached affiliations. */
  lemma JoinedAuthors(san: string -> string, authors: seq<RefAuthor>, affs: seq<RefAffiliation>, i: nat, x: string)
    requires i < |authors|
    ensures var r := Joined(san, authors, affs);
      |r| == |authors| && r[i].name == san(authors[i].name)
      && (x in r[i].affiliations <==>
          exists j :: 0 <= j < |affs| && x == san(affs[j].name) && x != "" && affs[j].refId in authors[i].refIds)
  {
    AttachedIff(san, authors[i].refIds, affs, x);
  }

  // ----------------------------------------------------------------------
  // get_cmd_name
  // ----------------------------------------------------------------------

  /**
    * `get_cmd_name`: the text after the leading backslash up to the first
    * `[` when it comes before the first `{`, else up to the first `{`, with
    * `*` and spaces stripped.
    */
  function GetCmdName(cmd: string): string {
    var b := Find(cmd, "[");
    var c := Find(cmd, "{");
    var endIndex := if b != -1 && b < c then b else c;
    StripChars(Slice(cmd, 1, endIndex), {'*', ' '})
  }

  /**
    * For a command with a `{`, the name is the stretch of the command
    * between its first character and the first `[` or `{`, so it holds
    * neither, and no `*` or space at its ends.
    */
  lemma CmdNameShape(cmd: string)
    requires '{' in cmd
    ensures var r := GetCmdName(cmd);
      '{' !in r && '[' !in r
      && (r != [] ==> r[0] !in {'*', ' '} && r[|r| - 1] !in {'*', ' '})
      && exists i :: 1 <= i && IsSliceAt(cmd, r, i)
  {
    var e := NameEnd(cmd);
    NameBefore(cmd, e);
  }

  /** The stripped stretch between the first character and a position before which no `{` or `[` occurs. */
  lemma NameBefore(cmd: string, e: nat)
    requires e < |cmd| && forall k :: 0 <= k < e ==> cmd[k] != '{' && cmd[k] != '['
    ensures var r := StripChars(Slice(cmd, 1, e), {'*', ' '});
      '{' !in r && '[' !in r
      && (r != [] ==> r[0] !in {'*', ' '} && r[|r| - 1] !in {'*', ' '})
      && exists i :: 1 <= i && IsSliceAt(cmd, r, i)
  {
    var r := StripChars(Slice(cmd, 1, e), {'*', ' '});
    StripCharsEnds(Slice(cmd, 1, e), {'*', ' '});
    if e >= 1 {
      assert Slice(cmd, 1, e) == cmd[1..e];
      StrippedCharsSliceAt(cmd, 1, e, {'*', ' '});
      var i :| 1 <= i && i + |r| <= e && IsSliceAt(cmd, r, i);
      SliceBeforeAvoids(cmd, r, i, e);
    } else {
      assert Slice(cmd, 1, e) == [];
      assert IsSliceAt(cmd, r, 1);
    }
  }

  /** `s[a:b].strip(cs)` is a slice of `s` inside `a..b`. */
  lemma StrippedCharsSliceAt(s: string, a: nat, b: nat, cs: set<char>)
    requires a <= b <= |s|
    ensures var r := StripChars(s[a..b], cs); exists i :: a <= i && i + |r| <= b && IsSliceAt(s, r, i)
  {
    var mid := s[a..b];
    var r := StripChars(mid, cs);
    var i :| 0 <= i <= |mid| - |r| && IsSliceAt(mid, r, i);
    SliceWithin(s, a, b, r, i);
  }

  /** A slice that ends before `e` holds none of the characters that do not occur before `e`. */
  lemma SliceBeforeAvoids(cmd: string, r: string, a: nat, e: nat)
    requires IsSliceAt(cmd, r, a) && a + |r| <= e <= |cmd|
    requires forall k :: 0 <= k < e ==> cmd[k] != '{' && cmd[k] != '['
    ensures '{' !in r && '[' !in r
  {
    forall x | x in r ensures x != '{' && x != '[' {
      var k :| 0 <= k < |r| && r[k] == x;
      assert r[k] == cmd[a + k];
    }
  }

  /** The name ends before the first `{`, and at the first `[` when that comes earlier; neither occurs before the end. */
  lemma NameEnd(cmd: string) returns (e: nat)
    requires '{' in cmd
    ensures e < |cmd| && forall k :: 0 <= k < e ==> cmd[k] != '{' && cmd[k] != '['
    ensures GetCmdName(cmd) == StripChars(Slice(cmd, 1, e), {'*', ' '})
  {
    var b := Find(cmd, "[");
    var c := Find(cmd, "{");
    ContainsChar(cmd, '{');
    e := if b != -1 && b < c then b else c;
    forall k | 0 <= k < e ensures cmd[k] != '{' && cmd[k] != '[' {
      assert cmd[k..k + 1] == [cmd[k]];
      assert !OccursAt(cmd, "{", k);
      assert !OccursAt(cmd, "[", k);
    }
  }
}
