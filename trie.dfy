/**
  * The word trie that compiles a list of command names into one regular
  * expression: a nested dictionary from characters to sub-tries in which
  * the key `""` marks the end of a word, and the pattern it renders, an
  * alternation that shares common prefixes.
  */
module TrieRegex {
  import opened PyStr

  /** One trie level: its child per character, and whether a word ends here (the `""` key). */
  datatype Node = Node(kids: map<char, Node>, terminal: bool)

  const Empty: Node := Node(map[], false)

  /** The words stored below `n`. */
  predicate Has(n: Node, w: string)
    decreases |w|
  {
    if w == [] then n.terminal else w[0] in n.kids && Has(n.kids[w[0]], w[1..])
  }

  /** The child at `c`, or a fresh empty level (`char in ref and ref[char] or {}`). */
  function Child(n: Node, c: char): Node {
    if c in n.kids then n.kids[c] else Empty
  }

  /** `n` with the word `w` added: the state after `add(w)`. */
  function Insert(n: Node, w: string): Node
    decreases |w|
  {
    if w == [] then n.(terminal := true)
    else n.(kids := n.kids[w[0] := Insert(Child(n, w[0]), w[1..])])
  }

  /** After adding `w`, the stored words are the earlier ones and `w`. */
  lemma {:induction false} InsertHas(n: Node, w: string, v: string)
    ensures Has(Insert(n, w), v) <==> Has(n, v) || v == w
    decreases |w|
  {
    if w != [] && v != [] {
      if v[0] == w[0] {
        InsertHas(Child(n, w[0]), w[1..], v[1..]);
        assert Has(Child(n, w[0]), v[1..]) <==> Has(n, v);
        assert v == w <==> v[1..] == w[1..];
      }
    }
  }

  /** Adding a word that is already stored changes nothing. */
  lemma {:induction false} InsertIdempotent(n: Node, w: string)
    requires Has(n, w)
    ensures Insert(n, w) == n
    decreases |w|
  {
    if w != [] {
      InsertIdempotent(n.kids[w[0]], w[1..]);
      assert n.kids[w[0] := n.kids[w[0]]] == n.kids;
    }
  }

  /** The order in which two words are added does not matter. */
  lemma {:induction false} InsertCommutes(n: Node, a: string, b: string)
    ensures Insert(Insert(n, a), b) == Insert(Insert(n, b), a)
    decreases |a| + |b|
  {
    if a == [] || b == [] {
    } else if a[0] != b[0] {
      assert Insert(Insert(n, a), b).kids == Insert(Insert(n, b), a).kids;
    } else {
      InsertCommutes(Child(n, a[0]), a[1..], b[1..]);
    }
  }

  /** The trie built from `words`, added in order. */
  function Build(words: seq<string>): Node
    decreases |words|
  {
    if words == [] then Empty else Insert(Build(words[..|words| - 1]), words[|words| - 1])
  }

  /** The trie holds exactly the added words. */
  lemma {:induction false} BuildHas(words: seq<string>, v: string)
    ensures Has(Build(words), v) <==> v in words
    decreases |words|
  {
    if words != [] {
      var init := words[..|words| - 1];
      BuildHas(init, v);
      InsertHas(Build(init), words[|words| - 1], v);
      assert words == init + [words[|words| - 1]];
    } else {
      assert !Has(Empty, v);
    }
  }

  // ----------------------------------------------------------------------
  // The mutable trie
  // ----------------------------------------------------------------------

  class Trie {
    var data: Node

    constructor()
      ensures data == Empty
    {
      data := Empty;
    }

    /**
      * `add`: walks down along `word`, creating missing levels, and marks the
      * end of the word. The levels are values here, so the walk records the
      * path and the levels are put back together from the bottom up.
      */
    method Add(word: string)
      modifies this
      ensures data == Insert(old(data), word)
    {
      var path: seq<Node> := [data];
      var i := 0;
      while i < |word|
        invariant 0 <= i <= |word| && |path| == i + 1 && path[0] == data
        invariant forall k :: 0 <= k < i ==> path[k + 1] == Child(path[k], word[k])
      {
        path := path + [Child(path[i], word[i])];
        i := i + 1;
      }
      var cur := path[|word|].(terminal := true);
      assert word[|word|..] == [];
      while i > 0
        invariant 0 <= i <= |word|
        invariant cur == Insert(path[i], word[i..])
      {
        i := i - 1;
        assert word[i..][1..] == word[i + 1..];
        cur := path[i].(kids := path[i].kids[word[i] := cur]);
      }
      assert word[0..] == word;
      data := cur;
    }

    function Pattern(): (r: Option<string>)
      reads this
      ensures r.None? <==> data.terminal && data.kids == map[]
    {
      match PatternOf(data)
      case Some(re) => Some(Render(re))
      case None => None
    }
  }

  // ----------------------------------------------------------------------
  // The rendered pattern
  // ----------------------------------------------------------------------

  /** The pieces `_pattern` builds. */
  datatype Re =
    | Lit(c: char, next: Re)     // a character followed by its sub-trie's pattern
    | Chars(cs: seq<char>)       // the leaf children: one character, or a `[…]` class
    | Group(alts: seq<Re>)       // `(?:a|b|…)`
    | OptAtom(r: Re)             // `…?` after a character class
    | OptGroup(r: Re)            // `(?:…)?`

  /** The words a piece matches in full. */
  predicate Accepts(r: Re, w: string)
    decreases r
  {
    match r
    case Lit(c, next) => |w| >= 1 && w[0] == c && Accepts(next, w[1..])
    case Chars(cs) => |w| == 1 && w[0] in cs
    case Group(alts) => if alts == [] then w == [] else AnyAccepts(alts, w)
    case OptAtom(a) => w == [] || Accepts(a, w)
    case OptGroup(a) => w == [] || Accepts(a, w)
  }

  /** Some alternative of `alts` matches `w` in full. */
  predicate AnyAccepts(alts: seq<Re>, w: string)
    decreases alts
  {
    alts != [] && (Accepts(alts[0], w) || AnyAccepts(alts[1..], w))
  }

  /** The characters that `re.escape` prefixes with a backslash. */
  const Special: set<char> := {'(', ')', '[', ']', '{', '}', '?', '*', '+', '-', '|', '^', '$', '\\', '.',
                               '&', '~', '#', ' ', '\t', '\n', '\r', '\U{0B}', '\U{0C}'}

  /** `re.escape` of one character. */
  function Quote(c: char): (r: string)
    ensures 1 <= |r| <= 2 && r[|r| - 1] == c
  {
    if c in Special then ['\\', c] else [c]
  }

  function QuoteAll(cs: seq<char>): string
    decreases |cs|
  {
    if cs == [] then "" else Quote(cs[0]) + QuoteAll(cs[1..])
  }

  function Render(r: Re): string
    decreases r
  {
    match r
    case Lit(c, next) => Quote(c) + Render(next)
    case Chars(cs) => if |cs| == 1 then Quote(cs[0]) else "[" + QuoteAll(cs) + "]"
    case Group(alts) => "(?:" + Join(seq(|alts|, i requires 0 <= i < |alts| => Render(alts[i])), "|") + ")"
    case OptAtom(a) => Render(a) + "?"
    case OptGroup(a) => "(?:" + Render(a) + ")?"
  }

  /** The characters of `s` in increasing order. */
  function SortedChars(s: set<char>): (r: seq<char>)
    ensures forall i, j :: 0 <= i < j < |r| ==> r[i] < r[j]
    ensures forall c :: c in r <==> c in s
    decreases |s|
  {
    if s == {} then []
    else
      MinExists(s);
      var m :| m in s && forall x :: x in s ==> m <= x;
      [m] + SortedChars(s - {m})
  }

  lemma {:induction false} MinExists(s: set<char>)
    requires s != {}
    ensures exists m :: m in s && forall x :: x in s ==> m <= x
    decreases |s|
  {
    var y :| y in s;
    if s != {y} {
      MinExists(s - {y});
      var m :| m in s - {y} && forall x :: x in s - {y} ==> m <= x;
      var least := if y < m then y else m;
      forall x | x in s ensures least <= x {
        if x != y { assert x in s - {y}; }
      }
    } else {
      assert forall x :: x in s ==> y <= x;
    }
  }

  /** The `quote(char) + recurse` alternatives: children whose pattern is not None, in key order. */
  function Alts(n: Node, keys: seq<char>): (r: seq<Re>)
    requires forall c :: c in keys ==> c in n.kids
    ensures |r| <= |keys|
    decreases n, 0, |keys|
  {
    if keys == [] then []
    else
      var rest := Alts(n, keys[1..]);
      match PatternOf(n.kids[keys[0]])
      case Some(p) => [Lit(keys[0], p)] + rest
      case None => rest
  }

  /** The leaf children, whose concatenation fails with None and lands in the character class. */
  function Leaves(n: Node, keys: seq<char>): seq<char>
    requires forall c :: c in keys ==> c in n.kids
    decreases n, 0, |keys|
  {
    if keys == [] then []
    else if PatternOf(n.kids[keys[0]]).None? then [keys[0]] + Leaves(n, keys[1..])
    else Leaves(n, keys[1..])
  }

  /**
    * `_pattern`: None for a level that only ends a word; otherwise the
    * alternatives of the sub-tries in key order, the leaf characters as one
    * class after them, and an optional marker when a word also ends here.
    */
  function PatternOf(n: Node): (r: Option<Re>)
    ensures r.None? <==> n.terminal && n.kids == map[]
    decreases n, 1
  {
    if n.terminal && n.kids == map[] then None
    else
      var keys := SortedChars(n.kids.Keys);
      var alt := Alts(n, keys);
      var cc := Leaves(n, keys);
      var alt' := alt + (if |cc| > 0 then [Chars(cc)] else []);
      var result := if |alt'| == 1 then alt'[0] else Group(alt');
      Some(if !n.terminal then result else if |alt| == 0 then OptAtom(result) else OptGroup(result))
  }

  /** Every level ends a word or has children: true of every trie built by adding words. */
  predicate Filled(n: Node)
    decreases n
  {
    (n.terminal || n.kids != map[]) && forall c :: c in n.kids ==> Filled(n.kids[c])
  }

  lemma {:induction false} InsertFilled(n: Node, w: string)
    requires n == Empty || Filled(n)
    ensures Filled(Insert(n, w))
    decreases |w|
  {
    if w != [] {
      InsertFilled(Child(n, w[0]), w[1..]);
      var r := Insert(n, w);
      forall c | c in r.kids ensures Filled(r.kids[c]) {
        if c != w[0] {
          assert r.kids[c] == n.kids[c];
        }
      }
    }
  }

  lemma {:induction false} BuildFilled(words: seq<string>)
    ensures words == [] || Filled(Build(words))
    decreases |words|
  {
    if words != [] {
      BuildFilled(words[..|words| - 1]);
      InsertFilled(Build(words[..|words| - 1]), words[|words| - 1]);
    }
  }

  /** A leaf child (pattern None) stores exactly the empty word. */
  lemma LeafHas(n: Node, w: string)
    requires PatternOf(n).None?
    ensures Has(n, w) <==> w == []
  {
  }

  lemma {:induction false} AltsAccept(n: Node, keys: seq<char>, w: string)
    requires forall c :: c in keys ==> c in n.kids
    requires |w| >= 1 && w[0] in n.kids && PatternOf(n.kids[w[0]]).Some? ==>
      (Accepts(PatternOf(n.kids[w[0]]).value, w[1..]) <==> Has(n.kids[w[0]], w[1..]))
    ensures AnyAccepts(Alts(n, keys), w)
      <==> |w| >= 1 && w[0] in keys && PatternOf(n.kids[w[0]]).Some? && Has(n.kids[w[0]], w[1..])
    decreases |keys|
  {
    if keys != [] {
      AltsAccept(n, keys[1..], w);
      var r := Alts(n, keys);
      if PatternOf(n.kids[keys[0]]).Some? {
        assert r[1..] == Alts(n, keys[1..]);
      }
      if |w| >= 1 && w[0] in keys && w[0] != keys[0] {
        assert w[0] in keys[1..];
      }
    }
  }

  lemma {:induction false} LeavesAccept(n: Node, keys: seq<char>, c: char)
    requires forall k :: k in keys ==> k in n.kids
    ensures c in Leaves(n, keys) <==> c in keys && PatternOf(n.kids[c]).None?
    decreases |keys|
  {
    if keys != [] {
      LeavesAccept(n, keys[1..], c);
    }
  }

  /**
    * The language of the rendered pattern is exactly the set of stored
    * words (for a trie built by adding words, and as long as some child or
    * end marker exists).
    */
  lemma {:induction false} PatternLanguage(n: Node, w: string)
    requires Filled(n) && PatternOf(n).Some?
    ensures Accepts(PatternOf(n).value, w) <==> Has(n, w)
    decreases n
  {
    if |w| >= 1 && w[0] in n.kids && PatternOf(n.kids[w[0]]).Some? {
      PatternLanguage(n.kids[w[0]], w[1..]);
    }
    ResultLanguage(n, w);
  }

  /**
    * The alternatives and the class of one level accept exactly the
    * non-empty stored words, given that the child `w` enters does so.
    */
  lemma ResultLanguage(n: Node, w: string)
    requires Filled(n) && !(n.terminal && n.kids == map[])
    requires |w| >= 1 && w[0] in n.kids && PatternOf(n.kids[w[0]]).Some? ==>
      (Accepts(PatternOf(n.kids[w[0]]).value, w[1..]) <==> Has(n.kids[w[0]], w[1..]))
    ensures var keys := SortedChars(n.kids.Keys);
      var alt := Alts(n, keys);
      var cc := Leaves(n, keys);
      var alt' := alt + (if |cc| > 0 then [Chars(cc)] else []);
      var result := if |alt'| == 1 then alt'[0] else Group(alt');
      Accepts(result, w) <==> w != [] && Has(n, w)
  {
    var keys := SortedChars(n.kids.Keys);
    var alt := Alts(n, keys);
    var cc := Leaves(n, keys);
    AltsFact(n, keys, w);
    LeavesFact(n, keys, w);
    AltsLeavesCount(n, keys);
    var c :| c in n.kids;
    assert c in keys;
    GroupFact(alt, cc, w);
  }

  /** The alternatives accept the words that continue into a non-leaf child. */
  lemma AltsFact(n: Node, keys: seq<char>, w: string)
    requires forall c :: c in keys <==> c in n.kids
    requires |w| >= 1 && w[0] in n.kids && PatternOf(n.kids[w[0]]).Some? ==>
      (Accepts(PatternOf(n.kids[w[0]]).value, w[1..]) <==> Has(n.kids[w[0]], w[1..]))
    ensures AnyAccepts(Alts(n, keys), w)
      <==> (|w| >= 1 && w[0] in n.kids && PatternOf(n.kids[w[0]]).Some? && Has(n, w))
  {
    AltsAccept(n, keys, w);
  }

  /** The class accepts the one-character words that end in a leaf child. */
  lemma LeavesFact(n: Node, keys: seq<char>, w: string)
    requires forall c :: c in keys <==> c in n.kids
    ensures (|Leaves(n, keys)| > 0 && |w| == 1 && w[0] in Leaves(n, keys))
      <==> (|w| >= 1 && w[0] in n.kids && PatternOf(n.kids[w[0]]).None? && Has(n, w))
  {
    if |w| >= 1 {
      LeavesAccept(n, keys, w[0]);
      if w[0] in n.kids && PatternOf(n.kids[w[0]]).None? {
        LeafHas(n.kids[w[0]], w[1..]);
      }
    }
  }

  /** The alternatives and the class, grouped when there are several, accept what either accepts. */
  lemma GroupFact(alt: seq<Re>, cc: seq<char>, w: string)
    requires forall i :: 0 <= i < |alt| ==> alt[i].Lit?
    requires |alt| + |cc| > 0
    ensures var alt' := alt + (if |cc| > 0 then [Chars(cc)] else []);
      Accepts(if |alt'| == 1 then alt'[0] else Group(alt'), w)
      <==> AnyAccepts(alt, w) || (|cc| > 0 && |w| == 1 && w[0] in cc)
  {
    var alt' := alt + (if |cc| > 0 then [Chars(cc)] else []);
    OneOf(alt', w);
    AppendClass(alt, cc, w);
  }

  /** A single alternative is used as it is; several are grouped. Either way one of them must accept. */
  lemma OneOf(xs: seq<Re>, w: string)
    requires xs != []
    ensures Accepts(if |xs| == 1 then xs[0] else Group(xs), w) <==> AnyAccepts(xs, w)
  {
    if |xs| == 1 {
      assert xs[1..] == [];
    }
  }

  lemma {:induction false} AppendClass(alt: seq<Re>, cc: seq<char>, w: string)
    requires forall i :: 0 <= i < |alt| ==> alt[i].Lit?
    ensures AnyAccepts(alt + (if |cc| > 0 then [Chars(cc)] else []), w)
      <==> AnyAccepts(alt, w) || (|cc| > 0 && |w| == 1 && w[0] in cc)
    ensures w == [] ==> !AnyAccepts(alt, w)
    decreases |alt|
  {
    var tail: seq<Re> := if |cc| > 0 then [Chars(cc)] else [];
    if alt == [] {
      if |cc| > 0 { assert tail[1..] == []; }
    } else {
      AppendClass(alt[1..], cc, w);
      assert (alt + tail)[1..] == alt[1..] + tail;
    }
  }

  lemma {:induction false} AltsLeavesCount(n: Node, keys: seq<char>)
    requires forall c :: c in keys ==> c in n.kids
    ensures |Alts(n, keys)| + |Leaves(n, keys)| == |keys|
    ensures forall i :: 0 <= i < |Alts(n, keys)| ==> Alts(n, keys)[i].Lit?
    decreases |keys|
  {
    if keys != [] {
      AltsLeavesCount(n, keys[1..]);
    }
  }
}
