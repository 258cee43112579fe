/** The CJK code-point table of the tokenizer, the `is_cjk` test and the
    Japanese/Korean/Chinese picker. */
module Cjk {

  /** An inclusive code-point interval `(start, end)`. */
  datatype Range = Range(lo: int, hi: int) {
    predicate Contains(cp: int) {
      lo <= cp <= hi
    }
  }

  /** `CJK_UNICODE_RANGES['zh']`: the CJK ideograph blocks. */
  const ZhRanges: seq<Range> := [
    Range(0x4E00, 0x9FFF), Range(0x3400, 0x4DBF), Range(0x20000, 0x2A6DF),
    Range(0x2A700, 0x2B73F), Range(0x2B740, 0x2B81F)]

  /** `CJK_UNICODE_RANGES['ja']`: Hiragana and Katakana. */
  const JaRanges: seq<Range> := [Range(0x3040, 0x309F), Range(0x30A0, 0x30FF)]

  /** `CJK_UNICODE_RANGES['ko']`: Hangul syllables. */
  const KoRanges: seq<Range> := [Range(0xAC00, 0xD7AF)]

  /** `any(start <= cp <= end for start, end in rs)` */
  predicate InRanges(cp: int, rs: seq<Range>) {
    exists i :: 0 <= i < |rs| && rs[i].Contains(cp)
  }

  /** The Han ranges spelled out. */
  lemma ZhBounds(cp: int)
    ensures InRanges(cp, ZhRanges) <==>
      (0x4E00 <= cp <= 0x9FFF || 0x3400 <= cp <= 0x4DBF || 0x20000 <= cp <= 0x2A6DF ||
       0x2A700 <= cp <= 0x2B73F || 0x2B740 <= cp <= 0x2B81F)
  {
    if 0x4E00 <= cp <= 0x9FFF { assert ZhRanges[0].Contains(cp); }
    if 0x3400 <= cp <= 0x4DBF { assert ZhRanges[1].Contains(cp); }
    if 0x20000 <= cp <= 0x2A6DF { assert ZhRanges[2].Contains(cp); }
    if 0x2A700 <= cp <= 0x2B73F { assert ZhRanges[3].Contains(cp); }
    if 0x2B740 <= cp <= 0x2B81F { assert ZhRanges[4].Contains(cp); }
  }

  /** The Kana ranges spelled out. */
  lemma JaBounds(cp: int)
    ensures InRanges(cp, JaRanges) <==> (0x3040 <= cp <= 0x309F || 0x30A0 <= cp <= 0x30FF)
  {
    if 0x3040 <= cp <= 0x309F { assert JaRanges[0].Contains(cp); }
    if 0x30A0 <= cp <= 0x30FF { assert JaRanges[1].Contains(cp); }
  }

  /** The Hangul range spelled out. */
  lemma KoBounds(cp: int)
    ensures InRanges(cp, KoRanges) <==> 0xAC00 <= cp <= 0xD7AF
  {
    if 0xAC00 <= cp <= 0xD7AF { assert KoRanges[0].Contains(cp); }
  }

  /** `Tokenizer.is_cjk`: the code point lies in one of the table's ranges. */
  predicate IsCjk(c: char) {
    InRanges(c as int, ZhRanges) || InRanges(c as int, JaRanges) || InRanges(c as int, KoRanges)
  }

  /** `is_cjk` in terms of bare intervals: the table covers exactly these
      code points, and none of the ASCII characters. */
  lemma IsCjkBounds(c: char)
    ensures IsCjk(c) <==>
      (0x3040 <= c as int <= 0x30FF || 0x3400 <= c as int <= 0x4DBF || 0x4E00 <= c as int <= 0x9FFF ||
       0xAC00 <= c as int <= 0xD7AF || 0x20000 <= c as int <= 0x2A6DF || 0x2A700 <= c as int <= 0x2B81F)
    ensures c as int < 0x80 ==> !IsCjk(c)
  {
    ZhBounds(c as int);
    JaBounds(c as int);
    KoBounds(c as int);
  }

  /** Some character of `text` lies in `rs`. */
  predicate HasCharIn(text: string, rs: seq<Range>) {
    exists i :: 0 <= i < |text| && InRanges(text[i] as int, rs)
  }

  /** The three flags `detect_japanese_korean_chinese` sets while it walks the
      text. */
  datatype Flags = Flags(chinese: bool, japanese: bool, korean: bool)

  /** The flags after the loop of `detect_japanese_korean_chinese` has seen
      every character of `text`, left to right. */
  function ScanFlags(text: string): (f: Flags)
    ensures f.chinese <==> HasCharIn(text, ZhRanges)
    ensures f.japanese <==> HasCharIn(text, JaRanges)
    ensures f.korean <==> HasCharIn(text, KoRanges)
    decreases |text|
  {
    if |text| == 0 then Flags(false, false, false)
    else
      var prefix := text[..|text| - 1];
      var f := ScanFlags(prefix);
      var cp := text[|text| - 1] as int;
      HasCharInSnoc(prefix, text[|text| - 1], ZhRanges);
      HasCharInSnoc(prefix, text[|text| - 1], JaRanges);
      HasCharInSnoc(prefix, text[|text| - 1], KoRanges);
      assert prefix + [text[|text| - 1]] == text;
      Flags(f.chinese || InRanges(cp, ZhRanges),
            f.japanese || InRanges(cp, JaRanges),
            f.korean || InRanges(cp, KoRanges))
  }

  lemma HasCharInSnoc(prefix: string, c: char, rs: seq<Range>)
    ensures HasCharIn(prefix + [c], rs) <==> HasCharIn(prefix, rs) || InRanges(c as int, rs)
  {
    var s := prefix + [c];
    if InRanges(c as int, rs) {
      assert s[|prefix|] == c;
    }
    if HasCharIn(prefix, rs) {
      var i :| 0 <= i < |prefix| && InRanges(prefix[i] as int, rs);
      assert s[i] == prefix[i];
    }
    if HasCharIn(s, rs) {
      var i :| 0 <= i < |s| && InRanges(s[i] as int, rs);
      if i < |prefix| {
        assert s[i] == prefix[i];
      }
    }
  }

  /** `Tokenizer.detect_japanese_korean_chinese`: Kana wins over Hangul,
      Hangul over Han; with none of the three the answer is `??`. */
  function DetectJapaneseKoreanChinese(text: string): (lang: string)
    ensures lang == "ja" <==> HasCharIn(text, JaRanges)
    ensures lang == "ko" <==> !HasCharIn(text, JaRanges) && HasCharIn(text, KoRanges)
    ensures lang == "zh" <==>
      !HasCharIn(text, JaRanges) && !HasCharIn(text, KoRanges) && HasCharIn(text, ZhRanges)
    ensures lang == "??" <==>
      !HasCharIn(text, JaRanges) && !HasCharIn(text, KoRanges) && !HasCharIn(text, ZhRanges)
  {
    var f := ScanFlags(text);
    if f.japanese then "ja"
    else if f.korean then "ko"
    else if f.chinese then "zh"
    else "??"
  }

  /** The empty string is never resolved. */
  lemma EmptyIsUnresolved()
    ensures DetectJapaneseKoreanChinese("") == "??"
  {
  }

  /** A non-empty run of CJK characters always gets a language: the picker
      answers `??` on such a run never. */
  lemma {:induction false} CjkRunResolved(run: string)
    requires |run| > 0
    requires forall i :: 0 <= i < |run| ==> IsCjk(run[i])
    ensures DetectJapaneseKoreanChinese(run) in {"ja", "ko", "zh"}
  {
    assert IsCjk(run[0]);
    if InRanges(run[0] as int, JaRanges) {
      assert HasCharIn(run, JaRanges);
    } else if InRanges(run[0] as int, KoRanges) {
      assert HasCharIn(run, KoRanges);
    } else {
      assert HasCharIn(run, ZhRanges);
    }
  }

  /** Mixed Kana and Han text is Japanese, never Chinese. */
  lemma KanaBeatsHan(text: string, i: nat, j: nat)
    requires i < |text| && j < |text|
    requires InRanges(text[i] as int, JaRanges) && InRanges(text[j] as int, ZhRanges)
    ensures DetectJapaneseKoreanChinese(text) == "ja"
  {
  }
}
