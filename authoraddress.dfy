/**
  * The `\author{…}` / `\address{…}` scheme: every name of the first
  * `\author{}` shares the first `\address{}` as its one affiliation.
  */
module AuthorAddressScheme {
  import opened PyStr
  import opened Regex
  import opened RegExp
  import opened Authors
  import opened Scheme
  import AuthorNameScheme

  /** `AuthorAddress.validate`: both opening commands occur in the lower-cased content. */
  predicate AuthorAddressValid(content: string) {
    Has(content, "\\author{") && Has(content, "\\address{")
  }

  /** `AuthorAddress.extract`: `ext_single_aff` with the `\author{}` and `\address{}` patterns. */
  function AuthorAddressSpec(san: string -> string, split: string -> seq<string>, content: string): seq<Author> {
    AuthorNameScheme.ExtSingleAff(san, split, content, AuthorContent, AddressContent)
  }

  /** `AuthorAddress.extract`. */
  method AuthorAddressExtract(san: string -> string, split: string -> seq<string>, content: string)
    returns (r: seq<Author>)
    ensures r == AuthorAddressSpec(san, split, content)
  {
    r := AuthorNameScheme.ExtSingleAffLoop(san, split, content, AuthorContent, AddressContent);
  }

  /**
    * A `\name{…}` the case-insensitive content pattern finds is an occurrence
    * of `\name{` in the lower-cased text.
    */
  lemma CmdFoundHas(name: string, s: string)
    ensures Search(CmdContent(name), s).Some? ==> Has(s, "\\" + name + "{")
  {
    var r := Search(CmdContent(name), s);
    if r.Some? {
      assert CmdGroupAt(s, r.value.start, [name], '{', '}') == r;
      CmdGroupHas(name, s, r.value.start);
    }
  }

  lemma CmdGroupHas(name: string, s: string, i: nat)
    requires CmdGroupAt(s, i, [name], '{', '}').Some?
    ensures Has(s, "\\" + name + "{")
  {
    var m := CmdGroupAt(s, i, [name], '{', '}').value;
    var n :| n in [name] && LitAt(s, i + 1, n) && m.end == i + 1 + |n| + |m.g1|;
    assert n == name;
    var g := i + 1 + |name|;
    assert s[g] == '{' by {
      assert s[..m.end][m.end - |m.g1|..] == m.g1;
      assert m.g1[0] == s[..m.end][g];
    }
    LowerCmdAt(s, i, name);
    assert OccursAt(Lower(s), "\\" + name + "{", i);
  }

  /** A backslash, a name that lowers to `name`, and a brace spell `\name{` in the lower-cased text. */
  lemma LowerCmdAt(s: string, i: nat, name: string)
    requires i + |name| + 2 <= |s| && s[i] == '\\' && s[i + |name| + 1] == '{'
    requires Lower(s[i + 1..i + 1 + |name|]) == name
    ensures OccursAt(Lower(s), "\\" + name + "{", i)
  {
    var t := "\\" + name + "{";
    var low := Lower(s);
    forall j | 0 <= j < |t|
      ensures low[i + j] == t[j]
    {
      if 1 <= j <= |name| {
        assert Lower(s[i + 1..i + 1 + |name|])[j - 1] == LowerChar(s[i + j]);
      }
    }
  }

  /**
    * Without an `\author{}` or an `\address{}` there are no authors; with
    * both, author `k` is the `k`-th name of the first `\author{}`, carrying
    * the sanitized content of the first `\address{}` as its only
    * affiliation.
    */
  lemma AuthorAddressShares(san: string -> string, split: string -> seq<string>, content: string)
    ensures var r := AuthorAddressSpec(san, split, content);
      var namesMatch := Search(AuthorContent, content);
      var addressMatch := Search(AddressContent, content);
      (namesMatch.None? || addressMatch.None? ==> r == []) &&
      (namesMatch.Some? && addressMatch.Some? ==>
        var names := split(Strip(Inner(namesMatch.value)));
        |r| == |names| &&
        forall k :: 0 <= k < |r| ==> r[k] == Author(san(names[k]), [san(Inner(addressMatch.value))]))
  {
    AuthorNameScheme.ExtSingleAffShares(san, split, content, AuthorContent, AddressContent);
  }

  /** Authors are found only in content the validator accepts. */
  lemma AuthorAddressFoundIsValid(san: string -> string, split: string -> seq<string>, content: string)
    ensures AuthorAddressSpec(san, split, content) != [] ==> AuthorAddressValid(content)
  {
    assert "\\" + "author" + "{" == "\\author{";
    assert "\\" + "address" + "{" == "\\address{";
    CmdFoundHas("author", content);
    CmdFoundHas("address", content);
  }
}
