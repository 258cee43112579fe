/** The writing-system tokenizer: its table of code-point ranges per
    writing system, `is_writing_system`, `split_non_cjk_in_segment` and
    `tokenize`. The bodies of its `_tokenize` and `_group_segments` are not
    part of this model; `tokenize` takes them as parameters. */
module WritingSystems {
  import opened Base
  import opened Unicode
  import opened Cjk
  import opened WordSplit
  import opened Markup
  import opened Emitter
  import opened Grouping
  import opened Tokenizer

  /** `WRITING_SYSTEMS_UNICODE_RANGES`. */
  const Table: map<string, seq<Range>> := map[
    "zh" := [Range(0x4E00, 0x9FFF), Range(0x3400, 0x4DBF), Range(0x20000, 0x2A6DF),
             Range(0x2A700, 0x2B73F), Range(0x2B740, 0x2B81F)],
    "ja" := [Range(0x3040, 0x309F), Range(0x30A0, 0x30FF)],
    "ko" := [Range(0xAC00, 0xD7AF)],
    "ar" := [Range(0x0600, 0x06FF), Range(0x0750, 0x077F), Range(0x08A0, 0x08FF)],
    "cy" := [Range(0x0400, 0x04FF)],
    "deva" := [Range(0x0900, 0x097F)],
    "he" := [Range(0x0590, 0x05FF)],
    "th" := [Range(0x0E00, 0x0E7F)]
  ]

  /** `WRITING_SYSTEMS_UNICODE_RANGES.get(system, [])` */
  function RangesOf(system: string): seq<Range> {
    if system in Table then Table[system] else []
  }

  /** `any(start <= cp <= end for start, end in rs)`, scanned left to right. */
  function AnyContains(cp: int, rs: seq<Range>): (b: bool)
    ensures b <==> InRanges(cp, rs)
    decreases |rs|
  {
    if |rs| == 0 then false
    else if rs[0].Contains(cp) then true
    else
      var b := AnyContains(cp, rs[1..]);
      assert forall i :: 1 <= i < |rs| ==> rs[i] == rs[1..][i - 1];
      b
  }

  /** `Tokenizer.is_writing_system(char, system)`: the code point lies in an
      inclusive range listed for the system; an unlisted system matches
      nothing. */
  function IsWritingSystem(c: char, system: string): (b: bool)
    ensures b <==> system in Table && InRanges(c as int, Table[system])
  {
    AnyContains(c as int, RangesOf(system))
  }

  /** A system name absent from the table matches no character. */
  lemma AbsentSystemNeverMatches(c: char, system: string)
    requires system !in Table
    ensures !IsWritingSystem(c, system)
  {
  }

  /** Reference classification by bare intervals: the one system whose
      block holds `cp`, if any. */
  function SystemOf(cp: int): Option<string> {
    if 0x0400 <= cp <= 0x04FF then Some("cy")
    else if 0x0590 <= cp <= 0x05FF then Some("he")
    else if 0x0600 <= cp <= 0x06FF || 0x0750 <= cp <= 0x077F || 0x08A0 <= cp <= 0x08FF then Some("ar")
    else if 0x0900 <= cp <= 0x097F then Some("deva")
    else if 0x0E00 <= cp <= 0x0E7F then Some("th")
    else if 0x3040 <= cp <= 0x309F || 0x30A0 <= cp <= 0x30FF then Some("ja")
    else if 0x3400 <= cp <= 0x4DBF || 0x4E00 <= cp <= 0x9FFF || 0x20000 <= cp <= 0x2A6DF
         || 0x2A700 <= cp <= 0x2B73F || 0x2B740 <= cp <= 0x2B81F then Some("zh")
    else if 0xAC00 <= cp <= 0xD7AF then Some("ko")
    else None
  }

  lemma ArBounds(cp: int)
    ensures InRanges(cp, Table["ar"]) <==>
      (0x0600 <= cp <= 0x06FF || 0x0750 <= cp <= 0x077F || 0x08A0 <= cp <= 0x08FF)
  {
    var rs := Table["ar"];
    if 0x0600 <= cp <= 0x06FF { assert rs[0].Contains(cp); }
    if 0x0750 <= cp <= 0x077F { assert rs[1].Contains(cp); }
    if 0x08A0 <= cp <= 0x08FF { assert rs[2].Contains(cp); }
  }

  /** Systems with one block. */
  lemma SingleBlockBounds(system: string, cp: int)
    requires system in {"cy", "deva", "he", "th", "ko"}
    ensures InRanges(cp, Table[system]) <==> Table[system][0].Contains(cp)
  {
    assert |Table[system]| == 1;
  }

  /** The table lookup agrees with the interval classification: `c` belongs
      to `system` exactly when its block is that system's. */
  lemma IsWritingSystemIsSystemOf(c: char, system: string)
    ensures IsWritingSystem(c, system) <==> SystemOf(c as int) == Some(system)
  {
    var cp := c as int;
    if system in Table {
      if system == "zh" {
        assert Table["zh"] == ZhRanges;
        ZhBounds(cp);
      } else if system == "ja" {
        assert Table["ja"] == JaRanges;
        JaBounds(cp);
      } else if system == "ar" {
        ArBounds(cp);
      } else {
        SingleBlockBounds(system, cp);
      }
    }
  }

  /** The blocks of different systems do not overlap: a character belongs to
      at most one writing system. */
  lemma SystemsDisjoint(c: char, s1: string, s2: string)
    requires IsWritingSystem(c, s1) && IsWritingSystem(c, s2)
    ensures s1 == s2
  {
    IsWritingSystemIsSystemOf(c, s1);
    IsWritingSystemIsSystemOf(c, s2);
  }

  /** The Chinese, Japanese and Korean rows repeat the CJK table of the
      other tokenizer, so `is_cjk` means belonging to one of these three
      systems. */
  lemma CjkTablesAgree(c: char)
    ensures Table["zh"] == ZhRanges && Table["ja"] == JaRanges && Table["ko"] == KoRanges
    ensures IsCjk(c) <==> IsWritingSystem(c, "zh") || IsWritingSystem(c, "ja") || IsWritingSystem(c, "ko")
  {
  }

  /** `Tokenizer.split_non_cjk_in_segment`: the same pattern as the other
      tokenizer. Every token is a word run or one symbol, and with a
      consistent character database the tokens spell the input without its
      whitespace. */
  function SplitNonCjkInSegment(u: UnicodeDb, text: string): (tokens: seq<string>)
    ensures forall i :: 0 <= i < |tokens| ==> IsToken(u, tokens[i])
    ensures Valid(u) ==> Concat(tokens) == RemoveSpaces(u, text)
  {
    WordsAreTokens(u, text);
    WordsAreSpacelessText(u, text);
    Words(u, text)
  }

  lemma WordsAreSpacelessText(u: UnicodeDb, text: string)
    ensures Valid(u) ==> Concat(Words(u, text)) == RemoveSpaces(u, text)
  {
    if Valid(u) {
      WordsLoseOnlySpace(u, text);
    }
  }

  /** `Tokenizer.tokenize(text, group)` with `_tokenize` and
      `_group_segments` supplied by the caller: grouping is applied exactly
      when `group` is set, and the warning is raised exactly when the result
      contains `<??>`. */
  function Tokenize(tokenizeRaw: string -> string, groupSegments: string -> string, text: string, group: bool)
    : (r: Tokenized)
    ensures r.warned <==> Contains(r.markup, UnknownTag)
    ensures group ==> r.markup == groupSegments(tokenizeRaw(text))
    ensures !group ==> r.markup == tokenizeRaw(text)
  {
    var result := tokenizeRaw(text);
    Report(if group then groupSegments(result) else result)
  }

  /** Given the other tokenizer's `_tokenize` and `_group_segments`, the two
      `tokenize` methods agree. */
  lemma TokenizersAgree(u: UnicodeDb, detect: string -> Option<string>, text: string, group: bool)
    ensures Tokenize(t => TokenizeMarkup(u, detect, t), t => GroupSegments(u, t), text, group)
         == Tokenizer.Tokenize(u, detect, text, group)
  {
  }
}
