/**
  * `Author`: a name and a list of affiliation names, as every extraction
  * scheme returns them, with the equality the pipeline compares them by.
  */
module Authors {
  import opened PyStr

  datatype Author = Author(name: string, affiliations: seq<string>)

  /** The right operand of `==`: an `Author`, or any other object. */
  datatype Operand = AnAuthor(author: Author) | NotAnAuthor

  /**
    * `Author.__eq__`: `None` is `NotImplemented`. Two authors are equal when
    * the names are equal, the affiliation lists are equally long, and every
    * affiliation of the left one occurs in the right one's list.
    */
  function Eq(self: Author, other: Operand): (r: Option<bool>)
    ensures r.None? <==> other.NotAnAuthor?
  {
    match other
    case NotAnAuthor => None
    case AnAuthor(o) =>
      Some(self.name == o.name && |self.affiliations| == |o.affiliations|
           && forall x :: x in self.affiliations ==> x in o.affiliations)
  }

  /** The set of affiliation names of a list. */
  function Elems(s: seq<string>): set<string> {
    set x | x in s
  }

  predicate Distinct(s: seq<string>) {
    forall i, j :: 0 <= i < j < |s| ==> s[i] != s[j]
  }

  /** A list has at least as many entries as names, and exactly as many when it has no duplicate. */
  lemma {:induction false} ElemsSize(s: seq<string>)
    ensures |Elems(s)| <= |s|
    ensures Distinct(s) ==> |Elems(s)| == |s|
  {
    if s != [] {
      var t := s[1..];
      ElemsSize(t);
      assert Elems(s) == {s[0]} + Elems(t);
      if Distinct(s) {
        assert Distinct(t) by {
          forall i, j | 0 <= i < j < |t| ensures t[i] != t[j] {
            assert t[i] == s[i + 1] && t[j] == s[j + 1];
          }
        }
        assert s[0] !in Elems(t) by {
          forall k | 0 <= k < |t| ensures t[k] != s[0] {
            assert t[k] == s[k + 1];
          }
        }
      }
    }
  }

  /** An author is equal to itself. */
  lemma EqReflexive(a: Author)
    ensures Eq(a, AnAuthor(a)) == Some(true)
  {
  }

  /** Equality ignores the order of the affiliations: a reordered list still compares equal, both ways. */
  lemma EqIgnoresOrder(a: Author, b: Author)
    requires a.name == b.name && multiset(a.affiliations) == multiset(b.affiliations)
    ensures Eq(a, AnAuthor(b)) == Some(true) && Eq(b, AnAuthor(a)) == Some(true)
  {
    assert |a.affiliations| == |multiset(a.affiliations)| == |b.affiliations|;
    forall x | x in a.affiliations ensures x in b.affiliations {
      assert x in multiset(a.affiliations);
    }
    forall x | x in b.affiliations ensures x in a.affiliations {
      assert x in multiset(b.affiliations);
    }
  }

  /**
    * With a duplicate on the left, equality is not symmetric: `["a", "a"]`
    * equals `["a", "b"]`, but not the other way round.
    */
  lemma EqAsymmetricWithDuplicates()
    ensures Eq(Author("n", ["a", "a"]), AnAuthor(Author("n", ["a", "b"]))) == Some(true)
    ensures Eq(Author("n", ["a", "b"]), AnAuthor(Author("n", ["a", "a"]))) == Some(false)
  {
    var l: seq<string> := ["a", "b"];
    assert l[1] in l;
  }

  /**
    * Without duplicates on the left, equality is symmetric and both lists
    * hold the same affiliation names.
    */
  lemma EqSymmetricWithoutDuplicates(a: Author, b: Author)
    requires Distinct(a.affiliations)
    requires Eq(a, AnAuthor(b)) == Some(true)
    ensures Elems(a.affiliations) == Elems(b.affiliations)
    ensures Eq(b, AnAuthor(a)) == Some(true)
  {
    var A, B := Elems(a.affiliations), Elems(b.affiliations);
    ElemsSize(a.affiliations);
    ElemsSize(b.affiliations);
    assert A <= B;
    assert B == A + (B - A);
    assert |B - A| == 0;
    assert B - A == {};
    forall x | x in b.affiliations ensures x in a.affiliations {
      assert x in B;
    }
  }
}
