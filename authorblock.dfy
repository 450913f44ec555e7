/**
  * The IEEE `\authorblockN{…}`/`\authorblockA{…}` schemes: name blocks and
  * affiliation blocks, tied together by position, by `\authorrefmark`
  * references or by math-mode references.
  */
module AuthorBlockScheme {
  import opened PyStr
  import opened Regex
  import opened RegExp
  import opened Patterns
  import opened Authors
  import opened CmdUtil
  import opened Scheme
  import Latex

  // ----------------------------------------------------------------------
  // Blocks
  // ----------------------------------------------------------------------

  datatype BlockKind = NameBlock | AffBlock

  /** One `\authorblockN{…}` or `\authorblockA{…}`: its kind and its trimmed content. */
  datatype Block = Block(kind: BlockKind, content: string)

  /** `"name" if m.group("block_type").lower() == "n" else "aff"`, with `block_content[1:-1].strip()`. */
  function BlockOf(m: Match): (b: Block)
    ensures b.kind == NameBlock <==> Lower(m.g1) == "n"
    ensures Trimmed(b.content)
  {
    Block(if Lower(m.g1) == "n" then NameBlock else AffBlock, Strip(Slice(m.g2, 1, -1)))
  }

  /** `_get_authorblocks`: one block per `EXT_AUTHORBLOCK_BLOCKS` match, in order. */
  function Authorblocks(P: Patterns, text: string): (r: seq<Block>)
    ensures |r| == |FindIter(P.authorblockBlocks, text)|
  {
    Map(FindIter(P.authorblockBlocks, text), BlockOf)
  }

  method GetAuthorblocks(P: Patterns, text: string) returns (blocks: seq<Block>)
    ensures blocks == Authorblocks(P, text)
  {
    var ms := FindIter(P.authorblockBlocks, text);
    blocks := [];
    var i := 0;
    while i < |ms|
      invariant 0 <= i <= |ms|
      invariant blocks == Map(ms[..i], BlockOf)
    {
      MapStep(ms, BlockOf, i);
      var kind := if Lower(ms[i].g1) == "n" then NameBlock else AffBlock;
      blocks := blocks + [Block(kind, Strip(Slice(ms[i].g2, 1, -1)))];
      i := i + 1;
    }
    assert ms[..|ms|] == ms;
  }

  /** Block `k` is the block of match `k`: a name block iff its letter is `n` or `N`. */
  lemma AuthorblocksAt(P: Patterns, text: string)
    ensures forall k :: 0 <= k < |Authorblocks(P, text)| ==>
      var m := FindIter(P.authorblockBlocks, text)[k];
      && (Authorblocks(P, text)[k].kind == NameBlock <==> Lower(m.g1) == "n")
      && Authorblocks(P, text)[k].content == Strip(Slice(m.g2, 1, -1))
  {
    MapAt(FindIter(P.authorblockBlocks, text), BlockOf);
  }

  // ----------------------------------------------------------------------
  // Validators
  // ----------------------------------------------------------------------

  /** `AuthorBlock.validate`. */
  predicate AuthorBlockValid(content: string) {
    Has(content, "authorblockn") && Has(content, "authorblocka")
  }

  /** The blocks `AuthorBlockWithRef.validate` checks: all but a final name block with `@` and no refmark. */
  function CheckedEnd(blocks: seq<Block>): (end: nat)
    requires blocks != []
    ensures end == |blocks| || end == |blocks| - 1
  {
    var last := blocks[|blocks| - 1];
    if last.kind == NameBlock && '@' in last.content && !Contains(last.content, "authorrefmark") then |blocks| - 1
    else |blocks|
  }

  /**
    * `AuthorBlockWithRef.validate` on the lower-cased content; `None` when
    * it raises, which it does when the content has no block, since it takes
    * `blocks[-1]`.
    */
  function AuthorBlockWithRefValid(P: Patterns, content: string): (r: Option<bool>)
    ensures r.None? ==>
      Has(content, "authorblockn") && Has(content, "authorblocka") && Has(content, "authorrefmark")
      && Authorblocks(P, Lower(content)) == []
  {
    var c := Lower(content);
    if !Contains(c, "authorblockn") || !Contains(c, "authorblocka") || !Contains(c, "authorrefmark") then Some(false)
    else
      var blocks := Authorblocks(P, c);
      if blocks == [] then None
      else Some(forall k :: 0 <= k < CheckedEnd(blocks) ==> Contains(blocks[k].content, "authorrefmark"))
  }

  method AuthorBlockWithRefValidate(P: Patterns, content: string) returns (r: Option<bool>)
    ensures r == AuthorBlockWithRefValid(P, content)
  {
    var c := Lower(content);
    if !Contains(c, "authorblockn") || !Contains(c, "authorblocka") || !Contains(c, "authorrefmark") {
      return Some(false);
    }
    var blocks := GetAuthorblocks(P, c);
    if blocks == [] {
      return None;
    }
    var ok := RefmarkedUpTo(blocks, CheckedEnd(blocks));
    return Some(ok);
  }

  /** The loop `for block in blocks[:end]: if "authorrefmark" not in block["content"]: return False`. */
  method RefmarkedUpTo(blocks: seq<Block>, end: nat) returns (ok: bool)
    requires end <= |blocks|
    ensures ok <==> forall k :: 0 <= k < end ==> Contains(blocks[k].content, "authorrefmark")
  {
    var i := 0;
    while i < end
      invariant 0 <= i <= end
      invariant forall k :: 0 <= k < i ==> Contains(blocks[k].content, "authorrefmark")
    {
      if !Contains(blocks[i].content, "authorrefmark") {
        return false;
      }
      i := i + 1;
    }
    return true;
  }

  /** `AuthorBlockMath.validate`: a math reference, both block kinds, no refmark, and `$` in every block. */
  predicate AuthorBlockMathValid(P: Patterns, content: string) {
    && Count(content, "$^") + Count(content, "${}^") > 0
    && Has(content, "authorblockn") && Has(content, "authorblocka")
    && !Has(content, "authorrefmark")
    && forall b :: b in Authorblocks(P, content) ==> '$' in b.content
  }

  /** `AuthorBlockMath` and `AuthorBlockWithRef` never both accept. */
  lemma MathExcludesWithRef(P: Patterns, content: string)
    requires AuthorBlockMathValid(P, content)
    ensures AuthorBlockWithRefValid(P, content) == Some(false)
  {
  }

  /** Both ref-based validators imply `AuthorBlock.validate`. */
  lemma RefValidatorsImplyAuthorBlock(P: Patterns, content: string)
    ensures AuthorBlockWithRefValid(P, content) == Some(true) ==> AuthorBlockValid(content)
    ensures AuthorBlockMathValid(P, content) ==> AuthorBlockValid(content)
  {
  }

  // ----------------------------------------------------------------------
  // `AuthorBlock`: names take the affiliation of the blocks that follow
  // ----------------------------------------------------------------------

  /** The loop state of `AuthorBlock.extract`: the pending affiliation and names, and the authors so far. */
  datatype BlockState = BlockState(affiliation: string, authors: seq<string>, authorAff: seq<Author>)

  /**
    * One block: an affiliation block replaces the pending affiliation; a
    * name block first emits the pending names when an affiliation is
    * pending, then clears it and makes its own names pending.
    */
  function BlockStep(san: string -> string, split: string -> seq<string>, st: BlockState, b: Block): BlockState {
    if b.kind == AffBlock then BlockState(san(b.content), st.authors, st.authorAff)
    else if st.affiliation != "" then BlockState("", split(b.content), st.authorAff + Shared(san, st.authors, st.affiliation))
    else BlockState(st.affiliation, split(b.content), st.authorAff)
  }

  function BlockStepOf(san: string -> string, split: string -> seq<string>): (BlockState, Block) -> BlockState {
    (st: BlockState, b: Block) => BlockStep(san, split, st, b)
  }

  const Start: BlockState := BlockState("", [], [])

  /** After the loop: the pending names, when there are some and an affiliation is pending. */
  function Flushed(san: string -> string, st: BlockState): seq<Author> {
    if st.affiliation != "" && |st.authors| > 0 then st.authorAff + Shared(san, st.authors, st.affiliation)
    else st.authorAff
  }

  /** `AuthorBlock.extract` on its blocks. */
  function AuthorBlockOf(san: string -> string, split: string -> seq<string>, blocks: seq<Block>): seq<Author> {
    Flushed(san, Fold(BlockStepOf(san, split), Start, blocks))
  }

  /** `AuthorBlock.extract`: adjacent affiliation blocks, then adjacent name blocks, are merged first. */
  function AuthorBlockSpec(P: Patterns, san: string -> string, split: string -> seq<string>, content: string): seq<Author> {
    var c := P.joinMulti(AuthorblockNMulti, P.joinMulti(AuthorblockAMulti, content));
    AuthorBlockOf(san, split, Authorblocks(P, c))
  }

  method AuthorBlockExtract(P: Patterns, san: string -> string, split: string -> seq<string>, content: string)
    returns (authorAff: seq<Author>)
    ensures authorAff == AuthorBlockSpec(P, san, split, content)
  {
    var c := P.joinMulti(AuthorblockAMulti, content);
    c := P.joinMulti(AuthorblockNMulti, c);
    var blocks := GetAuthorblocks(P, c);
    var affiliation := "";
    var authors: seq<string> := [];
    authorAff := [];
    var i := 0;
    while i < |blocks|
      invariant 0 <= i <= |blocks|
      invariant Fold(BlockStepOf(san, split), Start, blocks[..i]) == BlockState(affiliation, authors, authorAff)
    {
      FoldStep(BlockStepOf(san, split), Start, blocks, i);
      if blocks[i].kind == AffBlock {
        affiliation := san(blocks[i].content);
      } else {
        if affiliation != "" {
          authorAff := AppendShared(san, authorAff, authors, affiliation);
          affiliation := "";
        }
        authors := split(blocks[i].content);
      }
      i := i + 1;
    }
    assert blocks[..|blocks|] == blocks;
    if affiliation != "" && |authors| > 0 {
      authorAff := AppendShared(san, authorAff, authors, affiliation);
    }
  }

  /** Every author carries exactly one affiliation, and it is not empty. */
  predicate OneNonEmptyEach(r: seq<Author>) {
    forall k :: 0 <= k < |r| ==> |r[k].affiliations| == 1 && r[k].affiliations[0] != ""
  }

  lemma SharedNonEmpty(san: string -> string, names: seq<string>, aff: string)
    requires aff != ""
    ensures OneNonEmptyEach(Shared(san, names, aff))
  {
    SharedAt(san, names, aff);
  }

  lemma OneNonEmptyEachAppend(a: seq<Author>, b: seq<Author>)
    requires OneNonEmptyEach(a) && OneNonEmptyEach(b)
    ensures OneNonEmptyEach(a + b)
  {
    assert forall k :: |a| <= k < |a| + |b| ==> (a + b)[k] == b[k - |a|];
  }

  predicate GoodState(st: BlockState) {
    OneNonEmptyEach(st.authorAff)
  }

  /** Every author `AuthorBlock.extract` emits has exactly one non-empty affiliation. */
  lemma AuthorBlockOneNonEmpty(san: string -> string, split: string -> seq<string>, blocks: seq<Block>)
    ensures OneNonEmptyEach(AuthorBlockOf(san, split, blocks))
  {
    forall st, b | GoodState(st) ensures GoodState(BlockStepOf(san, split)(st, b)) {
      if b.kind == NameBlock && st.affiliation != "" {
        SharedNonEmpty(san, st.authors, st.affiliation);
        OneNonEmptyEachAppend(st.authorAff, Shared(san, st.authors, st.affiliation));
      }
    }
    FoldKeeps(BlockStepOf(san, split), Start, blocks, GoodState);
    var st := Fold(BlockStepOf(san, split), Start, blocks);
    if st.affiliation != "" && |st.authors| > 0 {
      SharedNonEmpty(san, st.authors, st.affiliation);
      OneNonEmptyEachAppend(st.authorAff, Shared(san, st.authors, st.affiliation));
    }
  }

  /** A name block with no affiliation block after it contributes nothing. */
  lemma TrailingNameBlock(san: string -> string, split: string -> seq<string>, blocks: seq<Block>, content: string)
    ensures AuthorBlockOf(san, split, blocks + [Block(NameBlock, content)]) == AuthorBlockOf(san, split, blocks)
  {
    var st := Fold(BlockStepOf(san, split), Start, blocks);
    FoldAppend(BlockStepOf(san, split), Start, blocks, [Block(NameBlock, content)]);
    assert [Block(NameBlock, content)][..0] == [];
    if st.affiliation != "" && |st.authors| == 0 {
      assert Shared(san, st.authors, st.affiliation) == [];
    }
  }

  /** Affiliation blocks leave the names and the authors as they are. */
  lemma {:induction false} AffBlocksOnly(san: string -> string, split: string -> seq<string>, affs: seq<Block>)
    requires forall k :: 0 <= k < |affs| ==> affs[k].kind == AffBlock
    ensures var st := Fold(BlockStepOf(san, split), Start, affs); st.authors == [] && st.authorAff == []
    decreases |affs|
  {
    if affs != [] {
      AffBlocksOnly(san, split, affs[..|affs| - 1]);
    }
  }

  /** Affiliation blocks before the first name block are discarded. */
  lemma LeadingAffBlocks(san: string -> string, split: string -> seq<string>, affs: seq<Block>, blocks: seq<Block>)
    requires forall k :: 0 <= k < |affs| ==> affs[k].kind == AffBlock
    requires blocks != [] && blocks[0].kind == NameBlock
    ensures AuthorBlockOf(san, split, affs + blocks) == AuthorBlockOf(san, split, blocks)
  {
    var step := BlockStepOf(san, split);
    AffBlocksOnly(san, split, affs);
    var st := Fold(step, Start, affs);
    assert blocks == [blocks[0]] + blocks[1..];
    FoldAppend(step, Start, affs, blocks);
    FoldAppend(step, st, [blocks[0]], blocks[1..]);
    FoldAppend(step, Start, [blocks[0]], blocks[1..]);
    assert [blocks[0]][..0] == [];
    assert Fold(step, st, [blocks[0]]) == Fold(step, Start, [blocks[0]]);
  }

  // ----------------------------------------------------------------------
  // `AuthorBlockWithRef`: `\authorrefmark{…}` references
  // ----------------------------------------------------------------------

  /** `_get_author_refs_from_block` for one match: the stripped name, the comma-split stripped ids. */
  function RefAuthorOf(m: Match): (r: RefAuthor)
    ensures |r.refIds| == |Split(Slice(m.g2, 1, -1), ",")|
  {
    RefAuthor(Strip(m.g1), Map(Split(Slice(m.g2, 1, -1), ","), Strip))
  }

  /** `_get_affiliation_refs_from_block` for one match. */
  function RefAffiliationOf(m: Match): RefAffiliation {
    RefAffiliation(Strip(m.g1), Strip(Slice(m.g2, 1, -1)))
  }

  /** The authors a block contributes: only name blocks contribute. */
  function BlockRefAuthors(P: Patterns, b: Block): seq<RefAuthor> {
    if b.kind == NameBlock then Map(FindIter(P.authorblockRefAuthor, b.content), RefAuthorOf) else []
  }

  /** The affiliations a block contributes: only affiliation blocks contribute. */
  function BlockRefAffiliations(P: Patterns, b: Block): seq<RefAffiliation> {
    if b.kind == AffBlock then Map(FindIter(P.authorblockRefAff, b.content), RefAffiliationOf) else []
  }

  function RefAuthorsOf(P: Patterns): Block -> seq<RefAuthor> {
    (b: Block) => BlockRefAuthors(P, b)
  }

  function RefAffiliationsOf(P: Patterns): Block -> seq<RefAffiliation> {
    (b: Block) => BlockRefAffiliations(P, b)
  }

  /** `AuthorBlockWithRef.extract`: newlines removed, refmarks merged, then joined by id. */
  function AuthorBlockWithRefSpec(P: Patterns, san: string -> string, content: string): seq<Author> {
    var c := P.joinMulti(AuthorRefMarkMulti, Latex.RemoveLatexNewlines(content));
    var blocks := Authorblocks(P, c);
    Joined(san, FlatMap(blocks, RefAuthorsOf(P)), FlatMap(blocks, RefAffiliationsOf(P)))
  }

  method AuthorBlockWithRefExtract(P: Patterns, san: string -> string, content: string) returns (r: seq<Author>)
    ensures r == AuthorBlockWithRefSpec(P, san, content)
  {
    var c := Latex.RemoveLatexNewlines(content);
    c := P.joinMulti(AuthorRefMarkMulti, c);
    var blocks := GetAuthorblocks(P, c);
    var authors, affiliations := RefBlocksLoop(P, blocks);
    r := JoinAuthorAndAffilById(san, authors, affiliations);
  }

  /** The loop of `AuthorBlockWithRef.extract` over the blocks: the references of the name and affiliation blocks. */
  method RefBlocksLoop(P: Patterns, blocks: seq<Block>) returns (authors: seq<RefAuthor>, affiliations: seq<RefAffiliation>)
    ensures authors == FlatMap(blocks, RefAuthorsOf(P))
    ensures affiliations == FlatMap(blocks, RefAffiliationsOf(P))
  {
    authors := [];
    affiliations := [];
    var i := 0;
    while i < |blocks|
      invariant 0 <= i <= |blocks|
      invariant authors == FlatMap(blocks[..i], RefAuthorsOf(P))
      invariant affiliations == FlatMap(blocks[..i], RefAffiliationsOf(P))
    {
      FlatMapStep(blocks, RefAuthorsOf(P), i);
      FlatMapStep(blocks, RefAffiliationsOf(P), i);
      if blocks[i].kind == NameBlock {
        var found := RefAuthorsIn(P, blocks[i].content);
        authors := authors + found;
      } else {
        var found := RefAffiliationsIn(P, blocks[i].content);
        affiliations := affiliations + found;
      }
      i := i + 1;
    }
    assert blocks[..|blocks|] == blocks;
  }

  /** `_get_author_refs_from_block`. */
  method RefAuthorsIn(P: Patterns, block: string) returns (authors: seq<RefAuthor>)
    ensures authors == Map(FindIter(P.authorblockRefAuthor, block), RefAuthorOf)
  {
    var ms := FindIter(P.authorblockRefAuthor, block);
    authors := [];
    var i := 0;
    while i < |ms|
      invariant 0 <= i <= |ms|
      invariant authors == Map(ms[..i], RefAuthorOf)
    {
      MapStep(ms, RefAuthorOf, i);
      var ids := Map(Split(Slice(ms[i].g2, 1, -1), ","), Strip);
      authors := authors + [RefAuthor(Strip(ms[i].g1), ids)];
      i := i + 1;
    }
    assert ms[..|ms|] == ms;
  }

  /** `_get_affiliation_refs_from_block`. */
  method RefAffiliationsIn(P: Patterns, block: string) returns (affiliations: seq<RefAffiliation>)
    ensures affiliations == Map(FindIter(P.authorblockRefAff, block), RefAffiliationOf)
  {
    var ms := FindIter(P.authorblockRefAff, block);
    affiliations := [];
    var i := 0;
    while i < |ms|
      invariant 0 <= i <= |ms|
      invariant affiliations == Map(ms[..i], RefAffiliationOf)
    {
      MapStep(ms, RefAffiliationOf, i);
      affiliations := affiliations + [RefAffiliation(Strip(ms[i].g1), Strip(Slice(ms[i].g2, 1, -1)))];
      i := i + 1;
    }
    assert ms[..|ms|] == ms;
  }

  /** Authors come only from name blocks and affiliations only from affiliation blocks. */
  lemma WithRefSources(P: Patterns, blocks: seq<Block>, a: RefAuthor, f: RefAffiliation)
    ensures a in FlatMap(blocks, RefAuthorsOf(P)) <==>
      exists k :: 0 <= k < |blocks| && blocks[k].kind == NameBlock && a in Map(FindIter(P.authorblockRefAuthor, blocks[k].content), RefAuthorOf)
    ensures f in FlatMap(blocks, RefAffiliationsOf(P)) <==>
      exists k :: 0 <= k < |blocks| && blocks[k].kind == AffBlock && f in Map(FindIter(P.authorblockRefAff, blocks[k].content), RefAffiliationOf)
  {
    FlatMapIn(blocks, RefAuthorsOf(P), a);
    FlatMapIn(blocks, RefAffiliationsOf(P), f);
  }

  // ----------------------------------------------------------------------
  // `AuthorBlockMath`: math-mode references
  // ----------------------------------------------------------------------

  /** `_find_affiliations` for one `MATH_AFFILIATION` match. */
  function MathAffiliationOf(m: Match): RefAffiliation {
    RefAffiliation(m.g1, StripChars(m.g2, MathTrim))
  }

  /** `_find_authors` for one `MATH_AUTHOR_REF` match: skipped when the stripped name or reference is empty. */
  function MathAuthorOf(m: Match): (r: seq<RefAuthor>)
    ensures r == [] <==> StripChars(m.g1, {',', ' '}) == "" || StripChars(m.g2, MathTrim) == ""
    ensures r != [] ==> r == [RefAuthor(StripChars(m.g1, {',', ' '}), SplitRefStrings(StripChars(m.g2, MathTrim)))]
  {
    var name := StripChars(m.g1, {',', ' '});
    var ref := StripChars(m.g2, MathTrim);
    if name == "" || ref == "" then [] else [RefAuthor(name, SplitRefStrings(ref))]
  }

  /** The authors a block contributes: a name block's, after its math references are merged. */
  function BlockMathAuthors(P: Patterns, b: Block): seq<RefAuthor> {
    if b.kind == NameBlock then FlatMap(FindIter(P.mathAuthorRef, P.joinMulti(MathModeMulti, b.content)), MathAuthorOf) else []
  }

  function BlockMathAffiliations(P: Patterns, b: Block): seq<RefAffiliation> {
    if b.kind == AffBlock then Map(FindIter(P.mathAffiliation, b.content), MathAffiliationOf) else []
  }

  function MathAuthorsOf(P: Patterns): Block -> seq<RefAuthor> {
    (b: Block) => BlockMathAuthors(P, b)
  }

  function MathAffiliationsOf(P: Patterns): Block -> seq<RefAffiliation> {
    (b: Block) => BlockMathAffiliations(P, b)
  }

  /** `AuthorBlockMath.extract`. */
  function AuthorBlockMathSpec(P: Patterns, san: string -> string, content: string): seq<Author> {
    var blocks := Authorblocks(P, content);
    Joined(san, FlatMap(blocks, MathAuthorsOf(P)), FlatMap(blocks, MathAffiliationsOf(P)))
  }

  /** `_find_authors`. */
  method FindAuthors(P: Patterns, block: string) returns (authors: seq<RefAuthor>)
    ensures authors == FlatMap(FindIter(P.mathAuthorRef, block), MathAuthorOf)
  {
    var ms := FindIter(P.mathAuthorRef, block);
    authors := [];
    var i := 0;
    while i < |ms|
      invariant 0 <= i <= |ms|
      invariant authors == FlatMap(ms[..i], MathAuthorOf)
    {
      FlatMapStep(ms, MathAuthorOf, i);
      var name := StripChars(ms[i].g1, {',', ' '});
      var ref := StripChars(ms[i].g2, MathTrim);
      if name != "" && ref != "" {
        authors := authors + [RefAuthor(name, SplitRefStrings(ref))];
      }
      i := i + 1;
    }
    assert ms[..|ms|] == ms;
  }

  /** `_find_affiliations`. */
  method FindAffiliations(P: Patterns, block: string) returns (affiliations: seq<RefAffiliation>)
    ensures affiliations == Map(FindIter(P.mathAffiliation, block), MathAffiliationOf)
  {
    var ms := FindIter(P.mathAffiliation, block);
    affiliations := [];
    var i := 0;
    while i < |ms|
      invariant 0 <= i <= |ms|
      invariant affiliations == Map(ms[..i], MathAffiliationOf)
    {
      MapStep(ms, MathAffiliationOf, i);
      affiliations := affiliations + [RefAffiliation(ms[i].g1, StripChars(ms[i].g2, MathTrim))];
      i := i + 1;
    }
    assert ms[..|ms|] == ms;
  }

  method AuthorBlockMathExtract(P: Patterns, san: string -> string, content: string) returns (r: seq<Author>)
    ensures r == AuthorBlockMathSpec(P, san, content)
  {
    var blocks := GetAuthorblocks(P, content);
    var authors, affiliations := CollectMathBlocks(P, blocks);
    r := JoinAuthorAndAffilById(san, authors, affiliations);
  }

  /** The loop of `AuthorBlockMath.extract` over the blocks. */
  method CollectMathBlocks(P: Patterns, blocks: seq<Block>) returns (authors: seq<RefAuthor>, affiliations: seq<RefAffiliation>)
    ensures authors == FlatMap(blocks, MathAuthorsOf(P))
    ensures affiliations == FlatMap(blocks, MathAffiliationsOf(P))
  {
    authors := [];
    affiliations := [];
    var i := 0;
    while i < |blocks|
      invariant 0 <= i <= |blocks|
      invariant authors == FlatMap(blocks[..i], MathAuthorsOf(P))
      invariant affiliations == FlatMap(blocks[..i], MathAffiliationsOf(P))
    {
      FlatMapStep(blocks, MathAuthorsOf(P), i);
      FlatMapStep(blocks, MathAffiliationsOf(P), i);
      var found, foundAffs := MathBlock(P, blocks[i]);
      authors := authors + found;
      affiliations := affiliations + foundAffs;
      i := i + 1;
    }
    assert blocks[..|blocks|] == blocks;
  }

  /** One block of `AuthorBlockMath.extract`: a name block's authors or an affiliation block's affiliations. */
  method MathBlock(P: Patterns, b: Block) returns (found: seq<RefAuthor>, foundAffs: seq<RefAffiliation>)
    ensures found == BlockMathAuthors(P, b) && foundAffs == BlockMathAffiliations(P, b)
  {
    found, foundAffs := [], [];
    if b.kind == NameBlock {
      var blockContent := P.joinMulti(MathModeMulti, b.content);
      found := FindAuthors(P, blockContent);
    } else {
      foundAffs := FindAffiliations(P, b.content);
    }
  }

  /** Every author of `AuthorBlockMath` has a non-empty name and a non-empty reference before splitting. */
  lemma MathAuthorsNamed(P: Patterns, block: string, a: RefAuthor)
    requires a in FlatMap(FindIter(P.mathAuthorRef, block), MathAuthorOf)
    ensures a.name != ""
  {
    FlatMapIn(FindIter(P.mathAuthorRef, block), MathAuthorOf, a);
  }
}
