/**
  * The nesting depth of a LaTeX command, one ingredient of its difficulty
  * rating: how deep its curly braces go at the deepest point.
  */
module Difficulty {
  import Scheme

  /** The change in nesting one character makes. */
  function Shift(c: char): int {
    if c == '{' then 1 else if c == '}' then -1 else 0
  }

  /** The running level after the characters of `s`, from 0; an unmatched `}` takes it below 0. */
  function Level(s: string): int
    decreases |s|
  {
    if s == [] then 0 else Level(s[..|s| - 1]) + Shift(s[|s| - 1])
  }

  /** The highest running level over all prefixes of `s`, the empty one included. */
  function Depth(s: string): int
    decreases |s|
  {
    if s == [] then 0
    else
      var d := Depth(s[..|s| - 1]);
      if Level(s) > d then Level(s) else d
  }

  /** `get_cmd_depth`. */
  method GetCmdDepth(cmdText: string) returns (maxLevel: int)
    ensures maxLevel == Depth(cmdText)
  {
    var level := 0;
    maxLevel := 0;
    for i := 0 to |cmdText|
      invariant level == Level(cmdText[..i])
      invariant maxLevel == Depth(cmdText[..i])
      invariant level <= maxLevel
    {
      assert cmdText[..i + 1][..i] == cmdText[..i];
      var c := cmdText[i];
      if c == '{' {
        level := level + 1;
        if level > maxLevel {
          maxLevel := level;
        }
      } else if c == '}' {
        level := level - 1;
      }
    }
    assert cmdText[..|cmdText|] == cmdText;
  }

  /**
    * The depth is never negative, no prefix runs deeper, and some prefix
    * reaches it: it is the maximum running level.
    */
  lemma {:induction false} DepthIsMaxLevel(s: string)
    ensures Depth(s) >= 0
    ensures forall i :: 0 <= i <= |s| ==> Level(s[..i]) <= Depth(s)
    ensures exists i :: 0 <= i <= |s| && Level(s[..i]) == Depth(s)
    decreases |s|
  {
    if s == [] {
      assert Level(s[..0]) == 0;
    } else {
      var n := |s| - 1;
      var front := s[..n];
      DepthIsMaxLevel(front);
      assert forall i :: 0 <= i <= n ==> front[..i] == s[..i];
      assert s[..|s|] == s;
      var i :| 0 <= i <= n && Level(front[..i]) == Depth(front);
      if Level(s) <= Depth(front) {
        assert Level(s[..i]) == Depth(s);
      }
    }
  }

  /** Text without `{` has depth 0. */
  lemma {:induction false} BraceFreeDepth(s: string)
    requires '{' !in s
    ensures Depth(s) == 0 && Level(s) <= 0
    decreases |s|
  {
    if s != [] {
      var front := s[..|s| - 1];
      assert forall c :: c in front ==> c in s;
      BraceFreeDepth(front);
    }
  }

  /** Every `{` can deepen by one at most: the depth is bounded by the number of opening braces. */
  lemma {:induction false} DepthAtMostOpenings(s: string)
    ensures Depth(s) <= |Scheme.Filter(s, IsOpen)|
    ensures Level(s) <= |Scheme.Filter(s, IsOpen)|
    decreases |s|
  {
    if s != [] {
      var n := |s| - 1;
      DepthAtMostOpenings(s[..n]);
    }
  }

  predicate IsOpen(c: char) { c == '{' }

  predicate IsBrace(c: char) { c == '{' || c == '}' }

  /** Only braces matter: dropping every other character keeps level and depth. */
  lemma {:induction false} OnlyBracesCount(s: string)
    ensures Level(Scheme.Filter(s, IsBrace)) == Level(s)
    ensures Depth(Scheme.Filter(s, IsBrace)) == Depth(s)
    decreases |s|
  {
    if s != [] {
      var n := |s| - 1;
      var front := s[..n];
      OnlyBracesCount(front);
      var b := Scheme.Filter(front, IsBrace);
      Snoc(front, s[n]);
      Scheme.FilterAppend(front, s[n], IsBrace);
      assert front + [s[n]] == s;
      if IsBrace(s[n]) {
        Snoc(b, s[n]);
      } else {
        assert Scheme.Filter(s, IsBrace) == b;
        assert Shift(s[n]) == 0;
        LevelAtMostDepth(front);
      }
    }
  }

  /** One more character shifts the level, and the depth rises to the new level if it is higher. */
  lemma Snoc(t: string, c: char)
    ensures Level(t + [c]) == Level(t) + Shift(c)
    ensures Depth(t + [c]) == if Level(t) + Shift(c) > Depth(t) then Level(t) + Shift(c) else Depth(t)
  {
    assert (t + [c])[..|t|] == t;
  }

  lemma LevelAtMostDepth(t: string)
    ensures Level(t) <= Depth(t)
  {
    DepthIsMaxLevel(t);
    assert t[..|t|] == t;
  }

  /**
    * A `}` lowers the level without raising the depth, so a closing brace
    * before an opening one cancels it.
    */
  lemma ClosingBrace(s: string)
    ensures Level(s + "}") == Level(s) - 1
    ensures Depth(s + "}") == Depth(s)
    ensures Depth("}" + "{") == 0
  {
    Snoc(s, '}');
    LevelAtMostDepth(s);
    Snoc([], '}');
    Snoc("}", '{');
  }

  /** `{a{b}c}` has depth 2. */
  lemma DepthExample()
    ensures Depth("{a{b}c}") == 2
  {
    var s1 := [] + ['{'];
    Snoc([], '{');
    var s2 := s1 + ['a'];
    Snoc(s1, 'a');
    var s3 := s2 + ['{'];
    Snoc(s2, '{');
    assert Level(s3) == 2 && Depth(s3) == 2;
    var s4 := s3 + ['b'];
    Snoc(s3, 'b');
    var s5 := s4 + ['}'];
    Snoc(s4, '}');
    var s6 := s5 + ['c'];
    Snoc(s5, 'c');
    assert Level(s6) == 1 && Depth(s6) == 2;
    var s7 := s6 + ['}'];
    Snoc(s6, '}');
    assert s7 == "{a{b}c}";
  }
}
