/**
  * The ROR (Research Organization Registry) records the matcher resolves
  * affiliations against: an organisation is identified by its ROR id URL,
  * and two records are the same organisation exactly when those ids agree.
  */
module RorData {
  import opened PyStr

  datatype ResearchLocation = ResearchLocation(locationName: string, countryName: string)

  datatype ResearchOrganization = ResearchOrganization(rorId: string, names: seq<string>, locations: seq<ResearchLocation>)

  datatype RorDataset = RorDataset(srcFileName: string, data: seq<ResearchOrganization>)

  // ----------------------------------------------------------------------
  // get_ror_id
  // ----------------------------------------------------------------------

  /** `s.split(sep)[-1]`: the last piece. */
  function LastPiece(s: string, sep: string): string
    requires |sep| > 0
  {
    var ps := Split(s, sep);
    ps[|ps| - 1]
  }

  /** `get_ror_id`: the id part of `https://ror.org/<id>`, after trailing `/`s are dropped. */
  function GetRorId(rorId: string): string {
    LastPiece(RStripChars(rorId, {'/'}), "/")
  }

  /** A text without the separator is its own last piece; otherwise the last piece is that of the text after the first separator. */
  lemma LastPieceStep(s: string, sep: string)
    requires |sep| > 0
    ensures Find(s, sep) < 0 ==> LastPiece(s, sep) == s
    ensures Find(s, sep) >= 0 ==> LastPiece(s, sep) == LastPiece(s[Find(s, sep) + |sep|..], sep)
  {
    SplitStep(s, sep);
    var i := Find(s, sep);
    if i >= 0 {
      var ps := Split(s[i + |sep|..], sep);
      var all := Split(s, sep);
      assert all == [s[..i]] + ps;
      assert all[|all| - 1] == ps[|ps| - 1];
    }
  }

  /** `r` is the longest end of `s` free of `c`: it ends `s`, holds no `c`, and is all of `s` or follows a `c`. */
  predicate LastFree(s: string, c: char, r: string) {
    EndsWith(s, r) && c !in r && (|r| < |s| ==> s[|s| - |r| - 1] == c)
  }

  /** The last piece of a split on one character is the longest end free of it. */
  lemma {:induction false} LastPieceShape(s: string, c: char)
    ensures LastFree(s, c, LastPiece(s, [c]))
    decreases |s|
  {
    var i := FindCharStep(s, c);
    if i < 0 {
      ContainsChar(s, c);
    } else {
      LastPieceShape(s[i + 1..], c);
      TailShape(s, c, i, LastPiece(s[i + 1..], [c]));
    }
  }

  /** One step of the split on `c`: where the first `c` sits, and what the last piece becomes past it. */
  lemma FindCharStep(s: string, c: char) returns (i: int)
    ensures i == Find(s, [c]) && i < |s|
    ensures i < 0 ==> LastPiece(s, [c]) == s
    ensures i >= 0 ==> s[i] == c && LastPiece(s, [c]) == LastPiece(s[i + 1..], [c])
  {
    LastPieceStep(s, [c]);
    i := Find(s, [c]);
    if i >= 0 {
      assert s[i..i + 1] == [c];
    }
  }

  lemma TailShape(s: string, c: char, i: nat, r: string)
    requires i < |s| && s[i] == c && LastFree(s[i + 1..], c, r)
    ensures LastFree(s, c, r)
  {
    var tail := s[i + 1..];
    assert s[|s| - |r|..] == tail[|tail| - |r|..];
    if |r| == |tail| {
      assert s[|s| - |r| - 1] == s[i];
    } else {
      assert s[|s| - |r| - 1] == tail[|tail| - |r| - 1];
    }
  }

  /** Only one end of a text has that shape: the part after its last `c`. */
  lemma LastFreeUnique(a: string, c: char, b: string, r: string)
    requires c !in b && LastFree(a + [c] + b, c, r)
    ensures r == b
  {
    var s := a + [c] + b;
    assert r == s[|s| - |r|..];
    if |r| > |b| {
      SuffixHolds(s, r, |s| - |b| - 1);
      assert false;
    } else if |r| < |b| {
      TailHolds(a + [c], b, |s| - |r| - 1);
      assert false;
    }
    assert s[|s| - |b|..] == b;
  }

  lemma SuffixHolds(s: string, r: string, k: int)
    requires EndsWith(s, r) && |s| - |r| <= k < |s|
    ensures s[k] in r
  {
    assert s[k] == r[k - (|s| - |r|)];
  }

  lemma TailHolds(a: string, b: string, k: int)
    requires |a| <= k < |a + b|
    ensures (a + b)[k] in b
  {
    assert (a + b)[k] == b[k - |a|];
  }

  /** `https://ror.org/<id>` gives `<id>`, and so does the URL with a trailing `/`. */
  lemma RorIdOfUrl(prefix: string, id: string)
    requires id != [] && '/' !in id
    ensures GetRorId(prefix + "/" + id) == id
    ensures GetRorId(prefix + "/" + id + "/") == id
  {
    var s := prefix + "/" + id;
    RStripKeeps(s);
    RStripOne(s);
    LastPieceShape(s, '/');
    LastFreeUnique(prefix, '/', id, LastPiece(s, "/"));
  }

  lemma RStripKeeps(s: string)
    requires s != [] && s[|s| - 1] != '/'
    ensures RStripChars(s, {'/'}) == s
  {
  }

  lemma RStripOne(s: string)
    requires s != [] && s[|s| - 1] != '/'
    ensures RStripChars(s + "/", {'/'}) == s
  {
    var p := c => c in {'/'};
    assert (s + "/")[..|s + "/"| - 1] == s;
    assert RStripWhere(s + "/", p) == RStripWhere(s, p);
  }

  /** The id never holds a `/`, and it ends the id URL once trailing `/`s are dropped. */
  lemma GetRorIdShape(rorId: string)
    ensures '/' !in GetRorId(rorId)
    ensures EndsWith(RStripChars(rorId, {'/'}), GetRorId(rorId))
  {
    LastPieceShape(RStripChars(rorId, {'/'}), '/');
  }

  /** The organisation `https://ror.org/02mhbdp94` has the id `02mhbdp94`; the placeholder `https://ror.org` has `ror.org`. */
  lemma RorIdExamples()
    ensures GetRorId("https://ror.org/02mhbdp94") == "02mhbdp94"
    ensures GetRorId("https://ror.org") == "ror.org"
  {
    RorIdExampleUrl();
    RorIdExampleSentinel();
  }

  lemma RorIdExampleUrl()
    ensures GetRorId("https://ror.org/02mhbdp94") == "02mhbdp94"
  {
    assert "https://ror.org/02mhbdp94" == "https://ror.org" + "/" + "02mhbdp94";
    RorIdOfUrl("https://ror.org", "02mhbdp94");
  }

  lemma RorIdExampleSentinel()
    ensures GetRorId("https://ror.org") == "ror.org"
  {
    assert "https://ror.org" == "https:/" + "/" + "ror.org";
    RorIdOfUrl("https:/", "ror.org");
  }

  // ----------------------------------------------------------------------
  // __eq__ and __hash__
  // ----------------------------------------------------------------------

  /** What a `ResearchOrganization` can be compared with. */
  datatype OrgOperand = AnOrg(org: ResearchOrganization) | NoneValue | OtherObject

  /** `ResearchOrganization.__eq__`: only the ROR ids are compared. */
  function OrgEq(self: ResearchOrganization, other: OrgOperand): (r: bool)
    ensures r <==> other.AnOrg? && other.org.rorId == self.rorId
  {
    match other
    case NoneValue => false
    case OtherObject => false
    case AnOrg(o) => self.rorId == o.rorId
  }

  /** `ResearchOrganization.__hash__`: the hash of the id; `hash` is Python's string hash. */
  function OrgHash(hash: string -> int, self: ResearchOrganization): int {
    hash(self.rorId)
  }

  /**
    * Equality is an equivalence on organisations that ignores names and
    * locations, and equal organisations hash alike, as a `set` needs.
    */
  lemma OrgEqIsEquivalence(hash: string -> int, a: ResearchOrganization, b: ResearchOrganization, c: ResearchOrganization)
    ensures OrgEq(a, AnOrg(a))
    ensures OrgEq(a, AnOrg(b)) <==> OrgEq(b, AnOrg(a))
    ensures OrgEq(a, AnOrg(b)) && OrgEq(b, AnOrg(c)) ==> OrgEq(a, AnOrg(c))
    ensures OrgEq(a, AnOrg(b)) ==> OrgHash(hash, a) == OrgHash(hash, b)
    ensures OrgEq(a, AnOrg(ResearchOrganization(a.rorId, b.names, c.locations)))
  {
  }
}
