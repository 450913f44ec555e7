/**
  * LaTeX normalisation: dropping comments line by line, turning accent
  * commands into Unicode, resolving `\footnotemark[…]` references, the
  * newline and spacing rewrites, and the order of the steps of
  * `sanitize_latex_cmd`.
  */
module Latex {
  import opened PyStr
  import opened Regex
  import opened RegExp
  import opened Patterns

  // ----------------------------------------------------------------------
  // Comments
  // ----------------------------------------------------------------------

  /**
    * The `%` at `k` starts a comment: it is not escaped by exactly one
    * backslash. `\%` is an escaped percent sign; `\\%` is a line break
    * followed by a comment.
    */
  predicate CommentAt(line: string, k: nat)
    requires k < |line|
  {
    line[k] == '%' && !(k >= 1 && line[k - 1] == '\\' && !(k >= 2 && line[k - 2] == '\\'))
  }

  /** The first comment sign at or after `k`, or -1. */
  function CommentIndexFrom(line: string, k: nat): (r: int)
    requires k <= |line|
    ensures r == -1 || (k <= r < |line| && CommentAt(line, r))
    ensures forall j :: k <= j < |line| && (r == -1 || j < r) ==> !CommentAt(line, j)
    decreases |line| - k
  {
    if k == |line| then -1
    else if CommentAt(line, k) then k
    else CommentIndexFrom(line, k + 1)
  }

  /** The index `_find_comment_index` is meant to return: the first comment sign, or -1. */
  function CommentIndex(line: string): int {
    CommentIndexFrom(line, 0)
  }

  /**
    * `_find_comment_index`: jump from one `%` to the next with `find`, skip
    * the escaped ones, return the first one that is not escaped. The
    * characters before the sign are read only where they exist.
    */
  method FindCommentIndex(line: string) returns (r: int)
    ensures r == CommentIndex(line)
    ensures r == -1 || (0 <= r < |line| && CommentAt(line, r))
  {
    var start := 0;
    while start <= |line|
      invariant forall j :: 0 <= j < start && j < |line| ==> !CommentAt(line, j)
      decreases |line| + 1 - start
    {
      var ci := FindFrom(line, "%", start);
      if ci == -1 {
        forall j | start <= j < |line| ensures !CommentAt(line, j) {
          assert !OccursAt(line, "%", j);
          assert line[j..j + 1] == [line[j]];
        }
        return -1;
      }
      assert line[ci..ci + 1] == "%";
      assert line[ci] == '%';
      forall j | start <= j < ci ensures !CommentAt(line, j) {
        assert !OccursAt(line, "%", j);
        assert line[j..j + 1] == [line[j]];
      }
      if ci >= 1 && line[ci - 1] == '\\' {
        if ci >= 2 && line[ci - 2] == '\\' {
          assert CommentAt(line, ci);
          return ci;
        }
      } else {
        assert CommentAt(line, ci);
        return ci;
      }
      start := ci + 1;
    }
    return -1;
  }

  /**
    * The escape test as the source writes it: `line[ci - 1]` and
    * `line[ci - 2]` are Python indices, so for a sign at position 0 or 1
    * they wrap around to the end of the line.
    */
  predicate WrappedCommentAt(line: string, k: nat)
    requires k < |line|
  {
    line[k] == '%' && !(At(line, k - 1) == '\\' && At(line, k - 2) != '\\')
  }

  /** `_find_comment_index` as written, with the wrapping escape test. */
  function CommentIndexAsWritten(line: string, k: nat): (r: int)
    requires k <= |line|
    ensures r == -1 || (k <= r < |line| && WrappedCommentAt(line, r))
    ensures forall j :: k <= j < |line| && (r == -1 || j < r) ==> !WrappedCommentAt(line, j)
    decreases |line| - k
  {
    if k == |line| then -1
    else if WrappedCommentAt(line, k) then k
    else CommentIndexAsWritten(line, k + 1)
  }

  /**
    * `_find_comment_index` as the source runs it: the `find` loop with the
    * escape test reading `line[ci - 1]` and `line[ci - 2]` as Python
    * indices, which wrap to the end of the line for a sign at 0 or 1.
    */
  method FindCommentIndexAsWritten(line: string) returns (r: int)
    ensures r == CommentIndexAsWritten(line, 0)
  {
    var start := 0;
    while start <= |line|
      invariant forall j :: 0 <= j < start && j < |line| ==> !WrappedCommentAt(line, j)
      decreases |line| + 1 - start
    {
      var ci := FindFrom(line, "%", start);
      if ci == -1 {
        forall j | start <= j < |line| ensures !WrappedCommentAt(line, j) {
          assert !OccursAt(line, "%", j);
          assert line[j..j + 1] == [line[j]];
        }
        return -1;
      }
      assert line[ci..ci + 1] == "%";
      assert line[ci] == '%';
      forall j | start <= j < ci ensures !WrappedCommentAt(line, j) {
        assert !OccursAt(line, "%", j);
        assert line[j..j + 1] == [line[j]];
      }
      if At(line, ci - 1) == '\\' {
        if At(line, ci - 2) == '\\' {
          assert WrappedCommentAt(line, ci);
          return ci;
        }
      } else {
        assert WrappedCommentAt(line, ci);
        return ci;
      }
      start := ci + 1;
    }
    return -1;
  }

  /**
    * A last line `\%a\` without a line break: the sign at 1 follows one
    * backslash, but the wrapped `line[-1]` is a backslash too, so the
    * source reports a comment there while the line has none.
    */
  lemma CommentIndexWrapsAround()
    ensures CommentIndexAsWritten("\\%a\\", 0) == 1
    ensures CommentIndex("\\%a\\") == -1
  {
    assert !CommentAt("\\%a\\", 1);
    assert WrappedCommentAt("\\%a\\", 1);
  }

  /** Only a line that ends in a backslash is read differently by the wrapping test. */
  lemma WrapNeedsTrailingBackslash(line: string, k: nat)
    requires k < |line| && line[|line| - 1] != '\\'
    ensures WrappedCommentAt(line, k) <==> CommentAt(line, k)
  {
  }

  /** So on every line that ends in a line break the source finds the intended index. */
  lemma {:induction false} AsWrittenAgrees(line: string, k: nat)
    requires k <= |line| && |line| > 0 && line[|line| - 1] == '\n'
    ensures CommentIndexAsWritten(line, k) == CommentIndexFrom(line, k)
    decreases |line| - k
  {
    if k < |line| {
      WrapNeedsTrailingBackslash(line, k);
      AsWrittenAgrees(line, k + 1);
    }
  }

  /**
    * What `remove_comments` keeps of one line: nothing of a blank line or a
    * line whose first non-blank character is `%`; a line with a comment is
    * cut before the sign, right-stripped and given a fresh `\n`; any other
    * line is kept as it is.
    */
  function CleanLine(line: string): string {
    if Strip(line) == "" || StartsWith(LStrip(line), "%") then ""
    else
      var ci := CommentIndexAsWritten(line, 0);
      if ci != -1 then RStrip(line[..ci]) + "\n" else line
  }

  /** Whether the `%` at `k` starts a comment depends only on the text up to `k`. */
  lemma CommentAtPrefix(a: string, b: string, k: nat)
    requires k < |a| && k < |b| && a[..k + 1] == b[..k + 1]
    ensures CommentAt(a, k) <==> CommentAt(b, k)
  {
    assert a[k] == a[..k + 1][k] == b[k];
    if k >= 1 {
      assert a[k - 1] == a[..k + 1][k - 1] == b[k - 1];
    }
    if k >= 2 {
      assert a[k - 2] == a[..k + 1][k - 2] == b[k - 2];
    }
  }

  /**
    * On a line that does not start with `%`, a sign the wrapping test
    * passes over does not start a comment either: at 0 there is no sign,
    * and at 1 the test skips it only after a backslash at 0.
    */
  lemma SkippedIsNoComment(line: string, j: nat)
    requires !StartsWith(LStrip(line), "%")
    requires j < |line| && !WrappedCommentAt(line, j)
    ensures !CommentAt(line, j)
  {
  }

  /** No line `remove_comments` keeps carries a comment any more, though it cuts with the wrapping test. */
  lemma CleanLineHasNoComment(line: string)
    ensures forall k :: 0 <= k < |CleanLine(line)| ==> !CommentAt(CleanLine(line), k)
  {
    if !(Strip(line) == "" || StartsWith(LStrip(line), "%")) {
      var ci := CommentIndexAsWritten(line, 0);
      if ci != -1 {
        var kept := RStrip(line[..ci]);
        assert kept == line[..|kept|];
        CutLineNoComment(line, kept);
      } else {
        WholeLineNoComment(line);
      }
    }
  }

  /** A line in which the wrapping test finds no comment sign carries no comment. */
  lemma WholeLineNoComment(line: string)
    requires !StartsWith(LStrip(line), "%")
    requires forall j :: 0 <= j < |line| ==> !WrappedCommentAt(line, j)
    ensures forall k :: 0 <= k < |line| ==> !CommentAt(line, k)
  {
    forall k | 0 <= k < |line| ensures !CommentAt(line, k) {
      SkippedIsNoComment(line, k);
    }
  }

  /** A cut before the first comment sign the wrapping test finds, with a line break added, carries no comment. */
  lemma CutLineNoComment(line: string, kept: string)
    requires !StartsWith(LStrip(line), "%")
    requires |kept| <= |line| && kept == line[..|kept|]
    requires forall j :: 0 <= j < |kept| ==> !WrappedCommentAt(line, j)
    ensures forall k :: 0 <= k < |kept + "\n"| ==> !CommentAt(kept + "\n", k)
  {
    var r := kept + "\n";
    forall k | 0 <= k < |r| ensures !CommentAt(r, k) {
      if k < |kept| {
        assert r[..k + 1] == line[..k + 1];
        SkippedIsNoComment(line, k);
        CommentAtPrefix(r, line, k);
      } else {
        assert r[k] == '\n';
      }
    }
  }

  /** The last line `\%a\` loses its escaped sign to the wrapping test and comes out as `\` and a line break. */
  lemma CleanLineWrapsAround()
    ensures CleanLine("\\%a\\") == "\\\n"
  {
    var line := "\\%a\\";
    CommentIndexWrapsAround();
    assert LStrip(line) == line;
    assert Strip(line) != "";
    assert line[..1] == "\\";
    assert RStrip("\\") == "\\";
  }

  /** The kept lines, concatenated. */
  function Cleaned(lines: seq<string>): string {
    if lines == [] then "" else CleanLine(lines[0]) + Cleaned(lines[1..])
  }

  /** A text none of whose lines needs cleaning is kept whole. */
  lemma {:induction false} CleanedIdentity(lines: seq<string>)
    requires forall l :: l in lines ==> CleanLine(l) == l
    ensures Cleaned(lines) == Concat(lines)
  {
    if lines != [] {
      assert lines[0] in lines;
      assert forall l :: l in lines[1..] ==> l in lines;
      CleanedIdentity(lines[1..]);
    }
  }

  /**
    * The body of `remove_comments`'s loop for one line: skip a blank or
    * commented-out line, else cut it at its comment sign.
    */
  method CleanOneLine(line: string) returns (kept: string)
    ensures kept == CleanLine(line)
  {
    if Strip(line) == "" || StartsWith(LStrip(line), "%") {
      return "";
    }
    var ci := FindCommentIndexAsWritten(line);
    kept := if ci != -1 then RStrip(line[..ci]) + "\n" else line;
  }

  /** The loop of `remove_comments` over the lines of the text. */
  method CleanLines(lines: seq<string>) returns (nc: string)
    ensures nc == Cleaned(lines)
  {
    nc := "";
    var i := 0;
    while i < |lines|
      invariant 0 <= i <= |lines|
      invariant nc + Cleaned(lines[i..]) == Cleaned(lines)
    {
      var kept := CleanOneLine(lines[i]);
      CleanedStep(lines, i, nc);
      nc := nc + kept;
      i := i + 1;
    }
    assert lines[|lines|..] == [];
  }

  /**
    * `remove_comments`: clean the lines of `tex` one by one, then delete the
    * `%` block markers with `LATEX_COMMENT_BLOCK`.
    */
  method RemoveComments(tex: string) returns (r: string)
    ensures r == RemoveAll(LatexCommentBlock, Cleaned(SplitLinesKeepEnds(tex)))
  {
    var nc := CleanLines(SplitLinesKeepEnds(tex));
    r := RemoveAll(LatexCommentBlock, nc);
  }

  lemma CleanedStep(lines: seq<string>, i: nat, nc: string)
    requires i < |lines| && nc + Cleaned(lines[i..]) == Cleaned(lines)
    ensures (nc + CleanLine(lines[i])) + Cleaned(lines[i + 1..]) == Cleaned(lines)
  {
    CleanedHead(lines, i);
    AppendAssoc(nc, CleanLine(lines[i]), Cleaned(lines[i + 1..]));
  }

  lemma CleanedHead(lines: seq<string>, i: nat)
    requires i < |lines|
    ensures Cleaned(lines[i..]) == CleanLine(lines[i]) + Cleaned(lines[i + 1..])
  {
    assert lines[i..][1..] == lines[i + 1..];
  }

  lemma AppendAssoc(a: string, b: string, c: string)
    ensures (a + b) + c == a + (b + c)
  {
  }

  /** Lines without blanks, leading `%` or comments come through `remove_comments`'s line pass unchanged. */
  lemma NoCommentsKept(tex: string)
    requires forall l :: l in SplitLinesKeepEnds(tex) ==>
      Strip(l) != "" && !StartsWith(LStrip(l), "%") && CommentIndexAsWritten(l, 0) == -1
    ensures Cleaned(SplitLinesKeepEnds(tex)) == tex
  {
    CleanedIdentity(SplitLinesKeepEnds(tex));
    ConcatSplitLines(tex);
  }

  // ----------------------------------------------------------------------
  // Accents and special letters
  // ----------------------------------------------------------------------

  /** The accent commands and the Unicode combining mark each one appends. */
  const CombiningMarks: map<string, char> := map[
    "`" := '\U{0300}', "'" := '\U{0301}', "^" := '\U{0302}', "~" := '\U{0303}',
    "=" := '\U{0304}', "u" := '\U{0306}', "." := '\U{0307}', "\"" := '\U{0308}',
    "h" := '\U{0309}', "r" := '\U{030A}', "H" := '\U{030B}', "v" := '\U{030C}',
    "|" := '\U{030D}', "U" := '\U{030E}', "C" := '\U{030F}', "f" := '\U{0311}',
    "b" := '\U{0320}', "d" := '\U{0323}', "c" := '\U{0327}', "k" := '\U{0328}',
    "t" := '\U{0361}']

  /** The letters written as a command of their own (`\o`, `\aa`, `\ss`, …). */
  const SpecialLetters: map<string, string> := map[
    "i" := "\U{0131}", "j" := "\U{0237}", "l" := "\U{0142}", "L" := "\U{0141}",
    "o" := "\U{00F8}", "O" := "\U{00D8}", "aa" := "\U{00E5}", "AA" := "\U{00C5}",
    "ae" := "\U{00E6}", "AE" := "\U{00C6}", "dh" := "\U{00F0}", "dj" := "\U{0111}",
    "DJ" := "\U{0110}", "DH" := "\U{0110}", "ij" := "\U{0133}", "IJ" := "\U{0132}",
    "ng" := "\U{014B}", "NG" := "\U{014A}", "oe" := "\U{0153}", "OE" := "\U{0152}",
    "ss" := "\U{00DF}", "SS" := "SS", "th" := "\U{00FE}", "TH" := "\U{00DE}"]

  /** The letters an empty base turns into (`\l{}`, `\o{}`). */
  const EmptyBaseLetters: map<string, string> := map[
    "l" := "\U{0142}", "L" := "\U{0141}", "o" := "\U{00F8}", "O" := "\U{00D8}"]

  /** The base letter: `\i` and `\j` become dotless ı and ȷ when an accent goes on them. */
  function AccentBase(cchar: string, ch: string): string {
    if ch == "\\i" && cchar != "" then "\U{0131}"
    else if ch == "\\j" && cchar != "" then "\U{0237}"
    else ch
  }

  /** `_tex_diacritics_to_unicode(c_char, char)`; an absent group is the empty text. */
  function DiacriticToUnicode(cchar: string, ch: string): (r: Option<string>)
    ensures r.Some? ==> r.value != ""
  {
    var base := AccentBase(cchar, ch);
    if base == "" then (if cchar in EmptyBaseLetters then Some(EmptyBaseLetters[cchar]) else None)
    else if cchar == "" then (if base in SpecialLetters then Some(SpecialLetters[base]) else None)
    else if cchar in CombiningMarks then Some(base + [CombiningMarks[cchar]])
    else None
  }

  /** A character of the Unicode block Combining Diacritical Marks used by the table. */
  predicate IsCombiningMark(c: char) {
    '\U{0300}' <= c <= '\U{0361}'
  }

  /**
    * An accent on a letter yields the (dotless, for `\i`/`\j`) letter
    * followed by exactly one combining mark, and only the 21 known accents
    * yield anything.
    */
  lemma AccentAppendsOneMark(cchar: string, ch: string)
    requires cchar != "" && ch != ""
    ensures DiacriticToUnicode(cchar, ch).Some? <==> cchar in CombiningMarks
    ensures DiacriticToUnicode(cchar, ch).Some? ==>
      var r := DiacriticToUnicode(cchar, ch).value;
      |r| == |AccentBase(cchar, ch)| + 1 && r[..|r| - 1] == AccentBase(cchar, ch) && IsCombiningMark(r[|r| - 1])
  {
    if cchar in CombiningMarks {
      var r := DiacriticToUnicode(cchar, ch).value;
      assert r == AccentBase(cchar, ch) + [CombiningMarks[cchar]];
      assert r[..|r| - 1] == AccentBase(cchar, ch);
    }
  }

  /**
    * Without a base letter only `l`, `L`, `o`, `O` give ł, Ł, ø, Ø; without
    * an accent only the 24 special letter names give anything.
    */
  lemma UnaccentedLetters(cchar: string, ch: string)
    ensures ch == "" ==> (DiacriticToUnicode(cchar, ch).Some? <==> cchar in {"l", "L", "o", "O"})
    ensures cchar == "" && ch != "" ==> (DiacriticToUnicode(cchar, ch).Some? <==> ch in SpecialLetters)
  {
  }

  /** Two entries of the table: `\'{\i}` is a dotless i with an acute accent, `{\o}` is ø. */
  lemma DiacriticExamples()
    ensures DiacriticToUnicode("'", "\\i") == Some("\U{0131}\U{0301}")
    ensures DiacriticToUnicode("", "o") == Some("\U{00F8}")
    ensures DiacriticToUnicode("v", "s") == Some("s\U{030C}")
    ensures DiacriticToUnicode("x", "e").None?
  {
    assert AccentBase("'", "\\i") == "\U{0131}";
    assert CombiningMarks["'"] == '\U{0301}';
    assert DiacriticToUnicode("'", "\\i") == Some("\U{0131}" + ['\U{0301}']);
    assert "\U{0131}" + ['\U{0301}'] == "\U{0131}\U{0301}";
    assert AccentBase("v", "s") == "s";
    assert CombiningMarks["v"] == '\U{030C}';
    assert DiacriticToUnicode("v", "s") == Some("s" + ['\U{030C}']);
    assert "s" + ['\U{030C}'] == "s\U{030C}";
  }

  /** `_sub_csc`: the table's text, or the matched text itself when the table has none. */
  function SubCsc(s: string, m: Match): string {
    match DiacriticToUnicode(m.g1, m.g2)
    case None => Text(s, m)
    case Some(rep) => if rep == "" then Text(s, m) else rep
  }

  /** A match the table resolves is replaced by the table's text, any other one is kept. */
  lemma SubCscResult(s: string, m: Match)
    ensures DiacriticToUnicode(m.g1, m.g2).None? ==> SubCsc(s, m) == Text(s, m)
    ensures DiacriticToUnicode(m.g1, m.g2).Some? ==> SubCsc(s, m) == DiacriticToUnicode(m.g1, m.g2).value
  {
    var rep := DiacriticToUnicode(m.g1, m.g2);
    assert rep.Some? ==> rep.value != "";
  }

  /** `_replace_composite_special_chars`. */
  function ReplaceCompositeSpecialChars(P: Patterns, tex: string): string {
    Sub(tex, FindIter(P.diacritic, tex), m => SubCsc(tex, m))
  }

  /** A character of no base letter and of no table entry never comes out of `_sub_csc`. */
  lemma SubCscKeepsAbsent(s: string, m: Match, c: char)
    requires c !in s && c !in m.g2
    requires !IsCombiningMark(c) && c !in "\U{0131}\U{0237}"
    requires forall k :: k in SpecialLetters ==> c !in SpecialLetters[k]
    requires forall k :: k in EmptyBaseLetters ==> c !in EmptyBaseLetters[k]
    ensures c !in SubCsc(s, m)
  {
    if c in Text(s, m) {
      TextChars(s, m, c);
    }
    var rep := DiacriticToUnicode(m.g1, m.g2);
    var base := AccentBase(m.g1, m.g2);
    if rep.Some? && base != "" && m.g1 != "" {
      assert rep.value == base + [CombiningMarks[m.g1]];
    }
  }

  // ----------------------------------------------------------------------
  // Escaped characters and spacing
  // ----------------------------------------------------------------------

  /** `(?<!\\)\\(?P<char>[%${}_#&])`: `g1` is the escaped character. */
  function EscapedCharAt(s: string, i: nat): (r: Option<Match>)
    ensures r.Some? ==> StartsHere(s, i, r.value) && r.value.end == i + 2 && r.value.g1 == [s[i + 1]]
  {
    if i + 1 < |s| && s[i] == '\\' && s[i + 1] in "%${}_#&" && !(i > 0 && s[i - 1] == '\\')
    then Some(Match(i, i + 2, [s[i + 1]], ""))
    else None
  }

  const LatexEscapedChars: MatchAt := (s: string, i: nat) => EscapedCharAt(s, i)

  /** `_replace_escaped_chars`: each escape becomes the character it escapes. */
  function ReplaceEscapedChars(latex: string): string {
    Sub(latex, FindIter(LatexEscapedChars, latex), (m: Match) => m.g1)
  }

  /** `(?<!\\)\\[ ,!>:;]`, the spacing commands. */
  function SpacingAt(s: string, i: nat): (r: Option<Match>)
    ensures r.Some? ==> StartsHere(s, i, r.value) && r.value.end == i + 2
  {
    if i + 1 < |s| && s[i] == '\\' && s[i + 1] in " ,!>:;" && !(i > 0 && s[i - 1] == '\\')
    then Some(Match(i, i + 2, "", ""))
    else None
  }

  const LatexSpacing: MatchAt := (s: string, i: nat) => SpacingAt(s, i)

  /** `_remove_tex_spacing`: `~` becomes a space, `\newline` becomes `\\`, spacing commands a space. */
  function RemoveTexSpacing(tex: string): (r: string)
    ensures '~' !in r
  {
    var t1 := Replace(tex, "~", " ");
    var t2 := Replace(t1, "\\newline", "\\\\");
    ReplaceLeavesNone(tex, "~", " ");
    ReplaceKeepsAbsent(t1, "\\newline", "\\\\", "~");
    ContainsChar(t2, '~');
    SubKeepsAbsent(t2, FindIter(LatexSpacing, t2), _ => " ", 0, '~');
    SubConst(t2, FindIter(LatexSpacing, t2), " ")
  }

  /** `_remove_multi_space`: whitespace runs become one space, then `strip`. */
  function RemoveMultiSpace(tex: string): (r: string)
    ensures SingleSpaced(r) && Trimmed(r)
  {
    CollapseSpacesSingle(tex);
    StripSingleSpaced(CollapseSpaces(tex));
    Strip(CollapseSpaces(tex))
  }

  /** A whitespace-free text that `tex` lacks is still lacking after `_remove_multi_space`. */
  lemma MultiSpaceKeepsAbsent(tex: string, t: string)
    requires t != [] && forall j :: 0 <= j < |t| ==> !IsSpace(t[j])
    requires !Contains(tex, t)
    ensures !Contains(RemoveMultiSpace(tex), t)
  {
    CollapseKeepsAbsent(tex, t);
    StripKeepsAbsent(CollapseSpaces(tex), t);
  }

  /** `remove_latex_newlines`. */
  function RemoveLatexNewlines(tex: string): string {
    RemoveMultiSpace(Replace(Replace(tex, "\\newline", " "), "\\\\", " "))
  }

  /**
    * The output of `remove_latex_newlines` holds no `\newline`, no `\\`, no
    * whitespace run and no whitespace at either end.
    */
  lemma RemoveLatexNewlinesClean(tex: string)
    ensures var r := RemoveLatexNewlines(tex);
      !Contains(r, "\\newline") && !Contains(r, "\\\\") && SingleSpaced(r) && Trimmed(r)
  {
    NewlinesReplaced(tex);
    NewlineCommandsUnspaced();
    MultiSpaceClean(Replace(Replace(tex, "\\newline", " "), "\\\\", " "), "\\newline", "\\\\");
  }

  /** Neither line-break command holds whitespace. */
  lemma NewlineCommandsUnspaced()
    ensures forall j :: 0 <= j < |"\\newline"| ==> !IsSpace("\\newline"[j])
    ensures forall j :: 0 <= j < |"\\\\"| ==> !IsSpace("\\\\"[j])
  {
  }

  /** `remove_multi_space` keeps two whitespace-free texts absent and leaves one clean line. */
  lemma MultiSpaceClean(tex: string, a: string, b: string)
    requires a != [] && forall j :: 0 <= j < |a| ==> !IsSpace(a[j])
    requires b != [] && forall j :: 0 <= j < |b| ==> !IsSpace(b[j])
    requires !Contains(tex, a) && !Contains(tex, b)
    ensures var r := RemoveMultiSpace(tex);
      !Contains(r, a) && !Contains(r, b) && SingleSpaced(r) && Trimmed(r)
  {
    MultiSpaceKeepsAbsent(tex, a);
    MultiSpaceKeepsAbsent(tex, b);
  }

  /** After the two replacements neither line-break command is left. */
  lemma NewlinesReplaced(tex: string)
    ensures var t2 := Replace(Replace(tex, "\\newline", " "), "\\\\", " ");
      !Contains(t2, "\\newline") && !Contains(t2, "\\\\")
  {
    var t1 := Replace(tex, "\\newline", " ");
    ReplaceLeavesNone(tex, "\\newline", " ");
    ReplaceKeepsAbsent(t1, "\\\\", " ", "\\newline");
    ReplaceLeavesNone(t1, "\\\\", " ");
  }

  // ----------------------------------------------------------------------
  // Footnote marks
  // ----------------------------------------------------------------------

  /** The commands a numbered `\footnotemark` may refer to. The name test is case-sensitive. */
  const OtherCommandNames: seq<string> := ["footnote", "institute", "thanks"]

  /** The texts of the matches in `ms` whose name (`g1`) is one of `names`, in order. */
  function NamedTexts(s: string, ms: seq<Match>, names: seq<string>): (r: seq<string>)
    ensures |r| <= |ms|
    ensures forall c :: c in r ==> exists m :: m in ms && m.g1 in names && c == Text(s, m)
  {
    if ms == [] then []
    else
      var rest := NamedTexts(s, ms[1..], names);
      assert forall m :: m in ms[1..] ==> m in ms;
      (if ms[0].g1 in names then [Text(s, ms[0])] else []) + rest
  }

  /**
    * `_get_other_commands`: the full `\footnote`, `\institute` and `\thanks`
    * commands, found with overlapping matches so that commands nested in
    * other commands count too.
    */
  function OtherCommands(P: Patterns, s: string): seq<string> {
    NamedTexts(s, Overlapped(P.fullCommand, s), OtherCommandNames)
  }

  /**
    * `_get_closest_previous_footnote`: the last `\footnote{…}` of `text`, or
    * the empty text when there is none.
    */
  function ClosestPreviousFootnote(text: string): string {
    match LastMatch(FootnoteContent, text)
    case None => ""
    case Some(m) => text[m.start..m.end]
  }

  /** The closest footnote is empty exactly when `text` has none, and is a `\footnote` command otherwise. */
  lemma ClosestPreviousFootnoteShape(text: string)
    ensures var r := ClosestPreviousFootnote(text);
      && (r == "" <==> FindIter(FootnoteContent, text) == [])
      && (r != "" ==> r[0] == '\\' && LitAt(r, 1, "footnote"))
  {
    LastCmdShape(text, FootnoteContent, "footnote");
  }

  /** The last match of a one-name command is a backslash followed by the name. */
  lemma LastCmdShape(text: string, at: MatchAt, name: string)
    requires at == CmdContent(name)
    ensures match LastMatch(at, text)
      case None => true
      case Some(m) => m.start < m.end <= |text| && text[m.start..m.end][0] == '\\' && LitAt(text[m.start..m.end], 1, name)
  {
    match LastMatch(at, text)
    case None =>
    case Some(m) =>
      assert at(text, m.start) == CmdGroupAt(text, m.start, [name], '{', '}');
      OneNameMatch(text, m.start, name, m);
      CmdTextShape(text, m.start, m.end, name);
  }

  /** The text of a command match: a backslash, then the name. */
  lemma CmdTextShape(text: string, a: nat, b: nat, name: string)
    requires a + 1 + |name| < b <= |text| && text[a] == '\\' && LitAt(text, a + 1, name)
    ensures text[a..b][0] == '\\' && LitAt(text[a..b], 1, name)
  {
    SliceOfSlice(text, a, b, 1, 1 + |name|);
    NameSliced(text, a, b, name);
  }

  /** With a single name, a command match spells that name after its backslash. */
  lemma OneNameMatch(text: string, i: nat, name: string, m: Match)
    requires CmdGroupAt(text, i, [name], '{', '}') == Some(m)
    ensures m.start == i && i + 1 + |name| < m.end <= |text| && text[i] == '\\' && LitAt(text, i + 1, name)
  {
    assert [name][0] == name && [name][1..] == [];
    assert CmdGroupAt(text, i, [name][1..], '{', '}').None?;
  }

  lemma NameSliced(text: string, a: nat, b: nat, name: string)
    requires a + 1 + |name| <= b <= |text| && LitAt(text, a + 1, name)
    requires text[a..b][1..1 + |name|] == text[a + 1..a + 1 + |name|]
    ensures LitAt(text[a..b], 1, name)
  {
  }

  /** How a mark's content `cnt[1:-1].strip()` is read. */
  datatype MarkKind = Closest | Numbered(n: nat) | Unhandled

  function KindOf(m: Match): MarkKind {
    var mark := Strip(Inner(m));
    if mark == "" || Lower(mark) == "\\value{footnote}" then Closest
    else if IsDigits(mark) then Numbered(DigitsValue(mark))
    else Unhandled
  }

  /**
    * The text that replaces the mark `m` in `latex` as it stands when the
    * mark is reached, or None when the mark is left in place.
    */
  function Reference(latex: string, m: Match, cmds: seq<string>): Option<string> {
    ReferenceFor(KindOf(m), Slice(latex, 0, m.start), cmds)
  }

  /** The reference of a mark of kind `k` with the text `before` in front of it. */
  function ReferenceFor(k: MarkKind, before: string, cmds: seq<string>): Option<string> {
    match k
    case Closest => Some(ClosestPreviousFootnote(before))
    case Numbered(n) => Some(if 1 <= n <= |cmds| then cmds[n - 1] else "")
    case Unhandled => None
  }

  /** One turn of the splicing loop for a mark whose kind is known. */
  lemma ResolveAs(latex: string, m: Match, cmds: seq<string>, k: MarkKind)
    requires k == KindOf(m)
    ensures ReferenceFor(k, Slice(latex, 0, m.start), cmds).None? ==> Resolve(latex, m, cmds) == latex
    ensures ReferenceFor(k, Slice(latex, 0, m.start), cmds).Some? ==>
      Resolve(latex, m, cmds) == Splice(latex, m, ReferenceFor(k, Slice(latex, 0, m.start), cmds).value)
  {
  }

  /** `latex[:m.start()] + reference + latex[m.end():]`, with Python's clamped slices. */
  function Splice(latex: string, m: Match, reference: string): string {
    Slice(latex, 0, m.start) + reference + Slice(latex, m.end, |latex|)
  }

  /** One turn of the splicing loop: the mark's reference spliced in, or the text unchanged. */
  function Resolve(latex: string, m: Match, cmds: seq<string>): string {
    match Reference(latex, m, cmds)
    case None => latex
    case Some(reference) => Splice(latex, m, reference)
  }

  /**
    * The splicing loop: each mark, in order, is replaced in the text as the
    * previous marks left it, at the offsets it had in the original text.
    */
  function SpliceMarks(latex: string, ms: seq<Match>, cmds: seq<string>): string
    decreases |ms|
  {
    if ms == [] then latex else SpliceMarks(Resolve(latex, ms[0], cmds), ms[1..], cmds)
  }

  /** What `_replace_fnmarks_with_reference` computes. */
  function FnmarksResolved(P: Patterns, latex: string): string {
    var cmds := OtherCommands(P, latex);
    if !Contains(latex, "\\footnotemark") || cmds == [] then latex
    else SpliceMarks(latex, FindIter(FootnotemarkContent, latex), cmds)
  }

  /**
    * `_replace_fnmarks_with_reference`: nothing to do without a
    * `\footnotemark` or without a command to refer to; otherwise each mark
    * found in the original text is spliced out in turn.
    */
  method ReplaceFnmarksWithReference(P: Patterns, latex: string) returns (r: string)
    ensures r == FnmarksResolved(P, latex)
    ensures !Contains(latex, "\\footnotemark") || OtherCommands(P, latex) == [] ==> r == latex
  {
    if !Contains(latex, "\\footnotemark") {
      return latex;
    }
    var cmds := OtherCommands(P, latex);
    if |cmds| == 0 {
      return latex;
    }
    r := SpliceMarksLoop(latex, FindIter(FootnotemarkContent, latex), cmds);
  }

  /** The `for m in …` loop of `_replace_fnmarks_with_reference` over the marks `ms`. */
  method SpliceMarksLoop(latex: string, ms: seq<Match>, cmds: seq<string>) returns (r: string)
    ensures r == SpliceMarks(latex, ms, cmds)
  {
    r := latex;
    for i := 0 to |ms|
      invariant SpliceMarks(r, ms[i..], cmds) == SpliceMarks(latex, ms, cmds)
    {
      assert ms[i..][1..] == ms[i + 1..];
      r := ResolveMark(r, ms[i], cmds);
    }
  }

  /** One turn of the loop: the mark's reference spliced into `latex`, or `latex` unchanged. */
  method ResolveMark(latex: string, m: Match, cmds: seq<string>) returns (r: string)
    ensures r == Resolve(latex, m, cmds)
  {
    var kind := KindOf(m);
    var before := Slice(latex, 0, m.start);
    var reference := ReferenceOf(kind, before, cmds);
    ResolveAs(latex, m, cmds, kind);
    if reference.None? {
      return latex;
    }
    r := before + reference.value + Slice(latex, m.end, |latex|);
  }

  /** The reference of a mark of kind `kind`, found in the text `before` it; None when the mark stays. */
  method ReferenceOf(kind: MarkKind, before: string, cmds: seq<string>) returns (reference: Option<string>)
    ensures reference == ReferenceFor(kind, before, cmds)
  {
    match kind {
      case Closest =>
        reference := Some(ClosestPreviousFootnote(before));
      case Numbered(n) =>
        var index := n - 1;
        reference := Some(if 0 <= index < |cmds| then cmds[index] else "");
      case Unhandled =>
        reference := None;
    }
  }

  /**
    * One mark inside the text: a number `n` becomes the n-th command
    * (1-based) or disappears when out of range; an empty mark or
    * `\value{footnote}` becomes the closest `\footnote` before it; anything
    * else stays.
    */
  lemma MarkResolution(latex: string, m: Match, cmds: seq<string>)
    requires m.start <= m.end <= |latex|
    ensures KindOf(m).Numbered? && 1 <= KindOf(m).n <= |cmds| ==>
      SpliceMarks(latex, [m], cmds) == latex[..m.start] + cmds[KindOf(m).n - 1] + latex[m.end..]
    ensures KindOf(m).Numbered? && !(1 <= KindOf(m).n <= |cmds|) ==>
      SpliceMarks(latex, [m], cmds) == latex[..m.start] + latex[m.end..]
    ensures KindOf(m).Closest? ==>
      SpliceMarks(latex, [m], cmds) == latex[..m.start] + ClosestPreviousFootnote(latex[..m.start]) + latex[m.end..]
    ensures KindOf(m).Unhandled? ==> SpliceMarks(latex, [m], cmds) == latex
  {
    var k := KindOf(m);
    SpliceOne(latex, m, cmds);
    ResolveAs(latex, m, cmds, k);
    if k.Numbered? {
      var reference := if 1 <= k.n <= |cmds| then cmds[k.n - 1] else "";
      SpliceInside(latex, m, reference);
      assert latex[..m.start] + "" == latex[..m.start];
    } else if k.Closest? {
      SpliceInside(latex, m, ClosestPreviousFootnote(Slice(latex, 0, m.start)));
    }
  }

  /** A splice of a mark that lies inside the text. */
  lemma SpliceInside(latex: string, m: Match, reference: string)
    requires m.start <= m.end <= |latex|
    ensures Splice(latex, m, reference) == latex[..m.start] + reference + latex[m.end..]
  {
  }

  lemma SpliceOne(latex: string, m: Match, cmds: seq<string>)
    ensures SpliceMarks(latex, [m], cmds) == Resolve(latex, m, cmds)
  {
    assert [m][1..] == [];
  }

  /** A mark `[d]` holding one digit `d` is read as the number `d`. */
  lemma DigitMark(m: Match, d: char)
    requires m.g1 == ['[', d, ']'] && IsDigitChar(d)
    ensures KindOf(m) == Numbered(d as int - '0' as int)
  {
    assert Inner(m) == [d];
    StripOneDigit(d);
    assert |Lower([d])| == 1;
  }

  lemma StripOneDigit(d: char)
    requires IsDigitChar(d)
    ensures Strip([d]) == [d] && IsDigits([d]) && DigitsValue([d]) == d as int - '0' as int
  {
    assert !IsSpace(d);
    assert LStripWhere([d], IsSpace) == [d];
    assert RStripWhere([d], IsSpace) == [d];
    assert DigitsValue([d]) == 10 * DigitsValue([]) + (d as int - '0' as int);
  }

  /** Two marks `1` and `2`: the second is spliced, at its original offsets, into the text the first left. */
  lemma {:induction false} TwoNumberedMarks(latex: string, m1: Match, m2: Match, cmds: seq<string>)
    requires KindOf(m1) == Numbered(1) && KindOf(m2) == Numbered(2) && |cmds| >= 2
    ensures SpliceMarks(latex, [m1, m2], cmds) == Splice(Splice(latex, m1, cmds[0]), m2, cmds[1])
  {
    SpliceMarksTwo(latex, m1, m2, cmds);
    NumberedResolve(latex, m1, cmds, 1);
    NumberedResolve(Resolve(latex, m1, cmds), m2, cmds, 2);
  }

  /** The splicing loop over two marks resolves them one after the other. */
  lemma SpliceMarksTwo(latex: string, m1: Match, m2: Match, cmds: seq<string>)
    ensures SpliceMarks(latex, [m1, m2], cmds) == Resolve(Resolve(latex, m1, cmds), m2, cmds)
  {
    assert [m1, m2][1..] == [m2];
    assert [m2][1..] == [];
    var t := Resolve(latex, m1, cmds);
    assert SpliceMarks(latex, [m1, m2], cmds) == SpliceMarks(t, [m2], cmds);
    assert SpliceMarks(t, [m2], cmds) == SpliceMarks(Resolve(t, m2, cmds), [], cmds);
  }

  /** A mark numbered `n` within range is replaced by the `n`-th command. */
  lemma NumberedResolve(latex: string, m: Match, cmds: seq<string>, n: nat)
    requires KindOf(m) == Numbered(n) && 1 <= n <= |cmds|
    ensures Resolve(latex, m, cmds) == Splice(latex, m, cmds[n - 1])
  {
    var k := KindOf(m);
    NumberedReference(k, Slice(latex, 0, m.start), cmds, n);
    ResolveAs(latex, m, cmds, k);
  }

  lemma NumberedReference(k: MarkKind, before: string, cmds: seq<string>, n: nat)
    requires k == Numbered(n) && 1 <= n <= |cmds|
    ensures ReferenceFor(k, before, cmds) == Some(cmds[n - 1])
  {
  }

  /**
    * The offsets of later marks are not moved by earlier splices: with the
    * marks `[1]` on `a` and `[2]` on `b` of `ab` and the references `xyz`
    * and `w`, the second splice lands inside the first reference and gives
    * `xwzb`; splicing from the right, which keeps offsets valid, gives the
    * intended `xyzw`.
    */
  lemma FnmarkOffsetsDrift()
    ensures var m1, m2 := Match(0, 1, "[1]", ""), Match(1, 2, "[2]", "");
      && SpliceMarks("ab", [m1, m2], ["xyz", "w"]) == "xwzb"
      && Splice(Splice("ab", m2, "w"), m1, "xyz") == "xyzw"
  {
    var m1, m2 := Match(0, 1, "[1]", ""), Match(1, 2, "[2]", "");
    DriftInOrder(m1, m2);
    DriftReversed(m1, m2);
  }

  lemma DriftInOrder(m1: Match, m2: Match)
    requires m1 == Match(0, 1, "[1]", "") && m2 == Match(1, 2, "[2]", "")
    ensures SpliceMarks("ab", [m1, m2], ["xyz", "w"]) == "xwzb"
  {
    DigitMark(m1, '1');
    DigitMark(m2, '2');
    var cmds := ["xyz", "w"];
    assert cmds[0] == "xyz" && cmds[1] == "w";
    TwoNumberedMarks("ab", m1, m2, cmds);
    DriftSplices(m1, m2);
  }

  lemma DriftSplices(m1: Match, m2: Match)
    requires m1 == Match(0, 1, "[1]", "") && m2 == Match(1, 2, "[2]", "")
    ensures Splice(Splice("ab", m1, "xyz"), m2, "w") == "xwzb"
  {
    SpliceInside("ab", m1, "xyz");
    assert "ab"[..0] + "xyz" + "ab"[1..] == "xyzb";
    SpliceInside("xyzb", m2, "w");
    assert "xyzb"[..1] + "w" + "xyzb"[2..] == "xwzb";
  }

  lemma DriftReversed(m1: Match, m2: Match)
    requires m1 == Match(0, 1, "[1]", "") && m2 == Match(1, 2, "[2]", "")
    ensures Splice(Splice("ab", m2, "w"), m1, "xyz") == "xyzw"
  {
    SpliceInside("ab", m2, "w");
    assert "ab"[..1] + "w" + "ab"[2..] == "aw";
    SpliceInside("aw", m1, "xyz");
    assert "aw"[..0] + "xyz" + "aw"[1..] == "xyzw";
  }

  /** One splice brings in only characters of the text and of the commands. */
  lemma ResolveKeepsAbsent(latex: string, m: Match, cmds: seq<string>, c: char)
    requires c !in latex && forall x :: x in cmds ==> c !in x
    ensures c !in Resolve(latex, m, cmds)
  {
    var p := Slice(latex, 0, m.start);
    var k := KindOf(m);
    ResolveAs(latex, m, cmds, k);
    SliceAbsent(latex, 0, m.start, c);
    ReferenceForKeepsAbsent(k, p, cmds, c);
    var reference := ReferenceFor(k, p, cmds);
    if reference.Some? {
      SpliceKeepsAbsent(latex, m, reference.value, c);
    }
  }

  /** A splice brings in only characters of the text and of the reference. */
  lemma SpliceKeepsAbsent(latex: string, m: Match, reference: string, c: char)
    requires c !in latex && c !in reference
    ensures c !in Splice(latex, m, reference)
  {
    SliceAbsent(latex, 0, m.start, c);
    SliceAbsent(latex, m.end, |latex|, c);
  }

  lemma SliceAbsent(s: string, i: int, j: int, c: char)
    requires c !in s
    ensures c !in Slice(s, i, j)
  {
    var a := SliceBound(|s|, i);
    var b := SliceBound(|s|, j);
    if a <= b {
      assert forall x :: x in s[a..b] ==> x in s;
    }
  }

  /** A reference is a stretch of the text before the mark or one of the commands. */
  lemma ReferenceForKeepsAbsent(k: MarkKind, p: string, cmds: seq<string>, c: char)
    requires c !in p && forall x :: x in cmds ==> c !in x
    ensures ReferenceFor(k, p, cmds).Some? ==> c !in ReferenceFor(k, p, cmds).value
  {
    match k
    case Closest =>
      var f := ClosestPreviousFootnote(p);
      if f != "" {
        var lm := LastMatch(FootnoteContent, p).value;
        assert f == Text(p, lm);
        if c in f { TextChars(p, lm, c); }
      }
    case Numbered(n) =>
      if 1 <= n <= |cmds| { assert cmds[n - 1] in cmds; }
    case Unhandled =>
  }

  /** So the whole splicing loop brings in only characters of the text and of the commands. */
  lemma {:induction false} SpliceMarksKeepsAbsent(latex: string, ms: seq<Match>, cmds: seq<string>, c: char)
    requires c !in latex && forall x :: x in cmds ==> c !in x
    ensures c !in SpliceMarks(latex, ms, cmds)
    decreases |ms|
  {
    if ms != [] {
      ResolveKeepsAbsent(latex, ms[0], cmds, c);
      SpliceMarksKeepsAbsent(Resolve(latex, ms[0], cmds), ms[1..], cmds, c);
    }
  }

  // ----------------------------------------------------------------------
  // The whole normaliser
  // ----------------------------------------------------------------------

  /** `_remove_orcid_ids`: the ORCID commands, then the three forms of bare ids. */
  function RemoveOrcidIds(P: Patterns, text: string): string {
    RemoveAll(P.urlOrcid, RemoveAll(P.hrefOrcid, RemoveAll(P.plainOrcid, RemoveAll(P.orcidCmds, text))))
  }

  /**
    * `sanitize_latex_cmd`, step by step in the source's order: unwrap
    * commands and fonts, drop useless commands, e-mails and descriptors,
    * rewrite spacing, resolve accents and escapes, drop measurements,
    * resolve footnote marks, drop ORCID ids, collapse whitespace.
    */
  function SanitizeLatexCmd(P: Patterns, latex: string): (r: string)
    ensures SingleSpaced(r) && Trimmed(r)
  {
    var unwrapped := P.unwrapFonts(P.unwrapCmds(latex));
    var useful := RemoveAll(P.descriptors, RemoveAll(P.uselessEmail,
      RemoveAll(P.useless, RemoveAll(P.uselessNoArgs, unwrapped))));
    var spaced := RemoveTexSpacing(useful);
    var letters := ReplaceEscapedChars(ReplaceCompositeSpecialChars(P, spaced));
    var measured := RemoveAll(LatexMeasurements, letters);
    RemoveMultiSpace(RemoveOrcidIds(P, FnmarksResolved(P, measured)))
  }

  /** Accent resolution brings in no `~`: the table holds none and a group holds only text characters. */
  lemma CompositeKeepsNoTilde(P: Patterns, tex: string)
    requires CapturesFromText(P.diacritic) && '~' !in tex
    ensures '~' !in ReplaceCompositeSpecialChars(P, tex)
  {
    var ms := FindIter(P.diacritic, tex);
    forall m | m in ms ensures '~' !in SubCsc(tex, m) {
      var k :| 0 <= k < |ms| && ms[k] == m;
      assert P.diacritic(tex, m.start) == Some(m);
      SubCscKeepsAbsent(tex, m, '~');
    }
    SubKeepsAbsent(tex, ms, m => SubCsc(tex, m), 0, '~');
  }

  /** Unescaping brings in no `~`: each escape becomes a character it already held. */
  lemma EscapedKeepsNoTilde(tex: string)
    requires '~' !in tex
    ensures '~' !in ReplaceEscapedChars(tex)
  {
    var ms := FindIter(LatexEscapedChars, tex);
    forall m | m in ms ensures '~' !in m.g1 {
      var k :| 0 <= k < |ms| && ms[k] == m;
      assert LatexEscapedChars(tex, m.start) == EscapedCharAt(tex, m.start) == Some(m);
      assert tex[m.start + 1] in tex;
    }
    SubKeepsAbsent(tex, ms, (m: Match) => m.g1, 0, '~');
  }

  /** Footnote-mark resolution brings in no `~`: every reference is a piece of the text. */
  lemma FnmarksKeepNoTilde(P: Patterns, latex: string)
    requires '~' !in latex
    ensures '~' !in FnmarksResolved(P, latex)
  {
    var cmds := OtherCommands(P, latex);
    forall x | x in cmds ensures '~' !in x {
      var m :| m in Overlapped(P.fullCommand, latex) && m.g1 in OtherCommandNames && x == Text(latex, m);
      if '~' in x { TextChars(latex, m, '~'); }
    }
    SpliceMarksKeepsAbsent(latex, FindIter(FootnotemarkContent, latex), cmds, '~');
  }

  /**
    * `sanitize_latex_cmd` leaves no `~`: `_remove_tex_spacing` turns every
    * one into a space and no later step brings one back.
    */
  lemma SanitizeLeavesNoTilde(P: Patterns, latex: string)
    requires CapturesFromText(P.diacritic)
    ensures '~' !in SanitizeLatexCmd(P, latex)
  {
    var unwrapped := P.unwrapFonts(P.unwrapCmds(latex));
    var useful := RemoveAll(P.descriptors, RemoveAll(P.uselessEmail,
      RemoveAll(P.useless, RemoveAll(P.uselessNoArgs, unwrapped))));
    var spaced := RemoveTexSpacing(useful);
    var measured := RemoveAll(LatexMeasurements, ReplaceEscapedChars(ReplaceCompositeSpecialChars(P, spaced)));
    MeasuredKeepsNoTilde(P, spaced);
    var resolved := FnmarksResolved(P, measured);
    FnmarksKeepNoTilde(P, measured);
    OrcidFreeKeepsNoTilde(P, resolved);
    MultiSpaceKeepsNoTilde(RemoveOrcidIds(P, resolved));
  }

  lemma MultiSpaceKeepsNoTilde(tex: string)
    requires '~' !in tex
    ensures '~' !in RemoveMultiSpace(tex)
  {
    ContainsChar(tex, '~');
    MultiSpaceKeepsAbsent(tex, "~");
    ContainsChar(RemoveMultiSpace(tex), '~');
  }

  lemma MeasuredKeepsNoTilde(P: Patterns, spaced: string)
    requires CapturesFromText(P.diacritic) && '~' !in spaced
    ensures '~' !in RemoveAll(LatexMeasurements, ReplaceEscapedChars(ReplaceCompositeSpecialChars(P, spaced)))
  {
    var composed := ReplaceCompositeSpecialChars(P, spaced);
    CompositeKeepsNoTilde(P, spaced);
    var letters := ReplaceEscapedChars(composed);
    EscapedKeepsNoTilde(composed);
    RemoveAllKeepsAbsent(LatexMeasurements, letters, '~');
  }

  lemma OrcidFreeKeepsNoTilde(P: Patterns, resolved: string)
    requires '~' !in resolved
    ensures '~' !in RemoveOrcidIds(P, resolved)
  {
    var t1 := RemoveAll(P.orcidCmds, resolved);
    RemoveAllKeepsAbsent(P.orcidCmds, resolved, '~');
    var t2 := RemoveAll(P.plainOrcid, t1);
    RemoveAllKeepsAbsent(P.plainOrcid, t1, '~');
    var t3 := RemoveAll(P.hrefOrcid, t2);
    RemoveAllKeepsAbsent(P.hrefOrcid, t2, '~');
    RemoveAllKeepsAbsent(P.urlOrcid, t3, '~');
  }
}
