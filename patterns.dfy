/**
  * The regular expressions of the pipeline that have no concrete model here.
  * Each is a `MatchAt` (what the pattern matches when tried at one
  * position) whose captured groups are recorded in `g1`/`g2` as each field's
  * comment says; the text rewriters built on several such patterns and
  * loops are plain text functions. A value of `Patterns` fixes one meaning
  * for all of them, and every member that uses them takes it as a parameter.
  */
module Patterns {
  import opened Regex

  datatype Patterns = Patterns(
    /** `LATEX_FULL_COMMAND`; `g1` is the command name. */
    fullCommand: MatchAt,
    /** `LATEX_SPECIAL_CHARS_DIACRITIC`; `g1` is `c_char`, `g2` is `char` (empty when absent). */
    diacritic: MatchAt,
    /** `LATEX_ORCID_CMDS`, `LATEX_PLAIN_ORCID_ID`, `LATEX_HREF_ORCID_ID`, `LATEX_URL_ORCID_ID`. */
    orcidCmds: MatchAt,
    plainOrcid: MatchAt,
    hrefOrcid: MatchAt,
    urlOrcid: MatchAt,
    /** `LATEX_USELESS_CMDS_NO_ARGS`, `LATEX_USELESS_CMDS`, `LATEX_USELESS_EMAIL`, `LATEX_DESCRIPTORS`. */
    uselessNoArgs: MatchAt,
    useless: MatchAt,
    uselessEmail: MatchAt,
    descriptors: MatchAt,
    /** `LATEX_EMAIL`: an optional e-mail label and one or more addresses. */
    email: MatchAt,
    /** `_unwrap_cmds` and `_unwrap_fonts` of the normaliser. */
    unwrapCmds: string -> string,
    unwrapFonts: string -> string,
    /**
      * The scheme patterns that capture a name next to a reference or an
      * argument. In each, `g1` is the `name` group and `g2` is the other one
      * (`ref`, `ref_id`, `aff` or `cnt`, with its delimiters when the pattern
      * captures a balanced group).
      */
    mathAuthorRef: MatchAt,       // MATH_AUTHOR_REF: name, ref_id (`$…$`)
    mathAffiliation: MatchAt,     // MATH_AFFILIATION: name, ref_id (`$…$`)
    affmarkAuthor: MatchAt,       // AFFMARK_AUTHOR: name, ref
    nameAffil: MatchAt,           // NAME_AFFIL: name, aff
    nameAffiliation: MatchAt,     // NAME_AFFILIATION: name, aff
    nameSup: MatchAt,             // NAME_SUP: name, ref
    authorThanksAff: MatchAt,     // AUTHOR_THANKS_AFF: name, aff
    extAuthorinfo: MatchAt,       // EXT_AUTHORINFO: name, aff
    footnotemarkAuthor: MatchAt,  // FOOTNOTEMARK_AUTHOR: name, ref_id
    footnotemarkAff: MatchAt,     // FOOTNOTEMARK_AFFILIATION: name, ref_id
    articleAuthorAff: MatchAt,    // EXT_ARTICLEAUTHORS_AUTHOR_AFF: name, aff
    authorblockRefAuthor: MatchAt,  // EXT_AUTHORBLOCK_REF_AUTHOR: name, ref_id
    authorblockRefAff: MatchAt,     // EXT_AUTHORBLOCK_REF_AFFILIATION: name, ref_id
    authorInstitute: MatchAt,     // EXT_AUTHOR_INSTITUTE_SEP_TEX_AND: name, aff
    authorFootnote: MatchAt,      // EXT_AUTHOR_FOOTNOTE: name, aff
    authorTextsuperscript: MatchAt, // AUTHOR_TEXTSUPERSCRIPT: name, ref
    affTextsuperscript: MatchAt,    // AFFILIATION_TEXTSUPERSCRIPT: name, ref
    doubleTsAff: MatchAt,           // DOUBLE_TEXTSUPERSCRIPT_AFFILIATION_CONTENT: name, ref
    /** `EXT_AUTHORBLOCK_BLOCKS`: `g1` is the block letter, `g2` the block content with its braces. */
    authorblockBlocks: MatchAt,
    /** `EXT_RRAUTHOR_THANKS_WITH_REF`: `g1` is `cnt` with its braces, `g2` the optional `ref_id`. */
    rrauthorThanks: MatchAt,
    /** `PREDICATIVE_EXPRESSIONS` ("is with", "are also with the", …). */
    predicative: MatchAt,
    /** `DOUBLE_TEXTSUPERCRIPT_AFFILIATION` and `DOUBLE_TEXTSUPERSCRIPT_AFFILIATION_CONTENT` used as a test. */
    doubleTsShape: MatchAt,
    /** `regex.fullmatch(VAL_AUTHOR_INSTITUTE_SEP_TEX_AND, ·)`. */
    institutesShape: string -> bool,
    /** `join_multi_cmd_occurrences` with the pattern and joiner of each kind. */
    joinMulti: (Multi, string) -> string
  )

  /** The `*_MULTI` patterns, each paired with the joiner its callers pass. */
  datatype Multi =
    | AffiliationMulti | AffilMulti | MathModeMulti | AuthorRefMarkMulti | TextsuperscriptMulti
    | ThanksrefMulti | SupMulti | AffmarkMulti | FootnotemarkMulti | InstituteMulti
    | AuthorblockAMulti | AuthorblockNMulti

  /**
    * A pattern whose captured groups are made of characters of the text it
    * searches, as every group a regular expression captures is.
    */
  ghost predicate CapturesFromText(at: MatchAt) {
    forall s: string, i: nat, c: char :: at(s, i).Some? && c in at(s, i).value.g2 ==> c in s
  }
}
