# VoPho multi-script tokenizer in Dafny

This project models the tokenizer that VoPho runs before phonemization. The
tokenizer cuts free text into runs by script and tags each run with a
language. It then re-reads its own markup to merge neighbouring spans of
one language.

The pipeline of `VoPho/tokenizers/multicoded.py` is modelled in full:

- **Character classes.** The CJK code-point table and `is_cjk` live in
  module `Cjk`. The punctuation test `is_punctuation` lives in module
  `Unicode`.
- **CJK picker.** `detect_japanese_korean_chinese` (`Cjk`) applies the
  rule "Kana before Hangul before Han, else `??`".
- **Run splitter.** `split_cjk_non_cjk` (`Segmenter`) builds CJK,
  non-CJK and one-character punctuation runs.
- **Word splitter.** `split_non_cjk_in_segment` (`WordSplit`) is the
  regular expression `\w+|[^\w\s]` written as a scanner.
- **Tag emitter.** `_tokenize` (`Emitter`) tags each run and joins
  consecutive words of one detected language into a single span.
- **Grouping pass.** `_group_segments` (`Grouping`) re-reads the markup
  with the pattern `(<(\w+)>.*?</\2>|[^\w\s])`, merges neighbouring matches
  with the same tag and deletes the `<punctuation>` wrappers. Module
  `Unwrap` states what that deletion does to the grouped spans.
- **Entry point.** `tokenize` (`Tokenizer`) groups on request and reports
  the `<??>` warning.

From `VoPho/langtokenizers/multicoded.py` (module `WritingSystems`) the
model covers the writing-system range table, `is_writing_system`,
`split_non_cjk_in_segment` and `tokenize`.

Modelling choices:

- **Character properties.** Python's `str.isalnum`, `str.isspace` and the
  regular-expression classes `\w` and `\s` are fields of a `UnicodeDb`
  value. The lemmas assume only three facts about them:
  - `Valid`: alphanumerics are word characters, and no word character is
    whitespace.
  - `MarkupChars`: the ASCII classes of the characters that make up the
    markup.
  - `LettersAlnum`: the lower-case ASCII letters are alphanumeric. Only the
    lemmas about deleting the punctuation tags use it.
- **Language identifier.** `fast_langdetect.detect` is a parameter
  `detect: string -> Option<string>`. `None` stands for a call that
  raised; the source catches every such exception.
- **Warning.** `warnings.warn` becomes the `warned` flag of the result.
- **Pending group.** `_tokenize` sets the pair (`current_lang`,
  `current_segment`) together and clears it together; `_group_segments`
  sets (`current_lang`, `current_content`) together. The model holds each
  pair as one `Option<Group>`.
- **Reference definitions.** Each loop is paired with an independent
  reference definition and proved equal to it:
  - the run splitter with `Segmenter.RefRuns`;
  - the word loop with `Emitter.RefEmit`;
  - the grouping pass, on well-formed markup, with `Grouping.MergeAdjacent`.

## Behaviours of the code that are easy to misread

The model follows the code in each of these.

- **A punctuation word keeps the word group open.** In the word loop of
  `_tokenize` (`VoPho/tokenizers/multicoded.py:129-131`), a punctuation word
  is appended as a span of its own and the loop `continue`s. The pending
  group stays open, so two words of one language on either side of it
  share one span (`Emitter.PunctuationDoesNotCloseGroup`). Inside the
  pipeline that branch is never reached: a non-CJK run holds no
  punctuation character, so all of its words are alphanumeric
  (`Emitter.NonCjkRunIsReference`).
- **A punctuation span separates groups.** `_group_segments` reads
  `<punctuation>…</punctuation>` as a tag pair with its own name, which
  closes the open group (lines 161-170). Two spans of one language on
  either side of it stay apart (`Grouping.PunctuationSpanSeparatesGroups`).
  Only bare symbols matched by `[^\w\s]` join an open group.
- **A failing identifier call loses words in grouping.** When `detect`
  raises (lines 140-145):
  - the pending group is closed under `??`, and the failing word goes out
    untagged (`Emitter.FailureMidGroup`);
  - outside a tag pair, word characters produce no match of the grouping
    pattern (`Grouping.ScanSkipsWordsAndSpaces`), so an untagged word on
    its own groups to nothing (`Grouping.BareWordVanishes`);
  - `<??>` is no tag to the pattern `<(\w+)>`
    (`Grouping.UnknownTagIsNotATag`), so a `??` span comes out as
    `<??></??>` without its words (`Grouping.UnknownSpanLosesWords`).
- **Content stops at the first closing tag of any name.** The content
  search `<\w+>(.*?)</\w+>` on line 163 is not tied to the pair's own
  name. An inner closing tag of another name cuts the content short
  (`Grouping.ContentStopsAtForeignClose`).
- **The punctuation tags are deleted as text.** Line 185 removes every
  `<punctuation>` and `</punctuation>` from the grouped markup with
  `str.replace`. On markup whose span contents cannot be read as either
  tag, this turns each punctuation span into its bare characters and
  leaves every other span whole (`Unwrap.UnwrapIsPiecewise`).

## Model

| member | source | states |
|---|---|---|
| `Unicode.IsPunctuation` | VoPho/tokenizers/multicoded.py:75-76 | Definition; its properties are stated by `Unicode.PunctuationChar`, `Segmenter.PunctuationIsolated` and `WordSplit.AlnumTextWords`. |
| `Unicode.PunctuationChar` | VoPho/tokenizers/multicoded.py:75-76 | On one character, `is_punctuation` holds exactly when the character is neither alphanumeric nor whitespace. |
| `Cjk.IsCjk` | VoPho/tokenizers/multicoded.py:36-42 | Definition; its properties are stated by `Cjk.IsCjkBounds` and `WritingSystems.CjkTablesAgree`. |
| `Cjk.IsCjkBounds` | VoPho/tokenizers/multicoded.py:36-42 | `is_cjk` holds exactly on the code points of the inclusive Kana, Han and Hangul blocks of the table, and never on ASCII. |
| `Cjk.ScanFlags` | VoPho/tokenizers/multicoded.py:50-63 | After the loop, each of the three flags is set exactly when some character of the text lies in that language's ranges. |
| `Cjk.DetectJapaneseKoreanChinese` | VoPho/tokenizers/multicoded.py:45-72 | The answer is `ja` iff some character is Kana; `ko` iff none is Kana and some is Hangul; `zh` iff neither and some is Han; `??` iff none of the three occurs. |
| `Cjk.EmptyIsUnresolved` | VoPho/tokenizers/multicoded.py:65-72 | The empty string gets `??`. |
| `Cjk.CjkRunResolved` | VoPho/tokenizers/multicoded.py:45-72 | A non-empty text made of CJK characters always gets `ja`, `ko` or `zh`, never `??`. |
| `Cjk.KanaBeatsHan` | VoPho/tokenizers/multicoded.py:65-70 | Text holding both a Kana and a Han character is Japanese. |
| `Segmenter.Step` | VoPho/tokenizers/multicoded.py:84-101 | One iteration of the loop keeps the pending segment and its type consistent, and leaves the segment empty exactly when the character is punctuation. Its effect on whole texts is stated by `Segmenter.SplitLoop` and `Segmenter.SplitIsReference`. |
| `Segmenter.SplitLoop` | VoPho/tokenizers/multicoded.py:83-101 | The loop keeps its invariant: finished runs plus the current segment spell the input read so far; finished runs are well formed with no same-kind neighbours; the current segment is empty exactly when its type is unset. |
| `Segmenter.SplitCjkNonCjk` | VoPho/tokenizers/multicoded.py:78-107 | The runs concatenate to the input exactly. Each run is non-empty with all characters of its kind, and a punctuation run has one character. No two neighbouring runs share the CJK or non-CJK kind. Empty input gives no runs. |
| `Segmenter.SegmentationUnique` | VoPho/tokenizers/multicoded.py:78-107 | Any list of runs with those properties equals the reference cut: each punctuation character alone, otherwise the longest same-kind stretch. |
| `Segmenter.SplitIsReference` | VoPho/tokenizers/multicoded.py:78-107 | The splitter computes exactly the reference cut. |
| `Segmenter.PunctuationIsolated` | VoPho/tokenizers/multicoded.py:84-89 | A run is tagged punctuation iff its character is punctuation, such a run holds a single character, and no other run contains punctuation. |
| `Segmenter.RunContents` | VoPho/tokenizers/multicoded.py:90-101 | CJK runs hold only CJK, non-punctuation characters. Non-CJK runs hold only non-CJK, non-punctuation characters. Neighbouring non-punctuation runs differ in kind. |
| `WordSplit.Words` | VoPho/tokenizers/multicoded.py:110-111 | Definition; its properties are stated by `WordSplit.WordsAreTokens`, `WordSplit.WordsLoseOnlySpace`, `WordSplit.WordsOfWord`, `WordSplit.WordsOfChar` and `WordSplit.WordsAppend`. |
| `WordSplit.WordRunLen` | VoPho/tokenizers/multicoded.py:111 | The greedy `\w+` takes word characters up to the first non-word character or the end. |
| `WordSplit.WordsAreTokens` | VoPho/tokenizers/multicoded.py:110-111 | Every match is a run of word characters or one character that is neither a word character nor whitespace. |
| `WordSplit.WordsLoseOnlySpace` | VoPho/tokenizers/multicoded.py:110-111 | The matches, joined in order, give the input with its whitespace removed. |
| `WordSplit.WordsOfWord` | VoPho/tokenizers/multicoded.py:110-111 | A run of word characters is a single match. |
| `WordSplit.WordsOfChar` | VoPho/tokenizers/multicoded.py:110-111 | A lone whitespace character yields no match; any other non-word character is a match by itself. |
| `WordSplit.WordsAppend` | VoPho/tokenizers/multicoded.py:110-111 | Cutting the input anywhere outside a word run cuts the match list in the same place, so word runs are maximal. |
| `WordSplit.AlnumTextWords` | VoPho/tokenizers/multicoded.py:110-111 | Text of alphanumerics and whitespace splits into alphanumeric words, none of which `is_punctuation` accepts. |
| `Base.Strip` | VoPho/tokenizers/multicoded.py:136 | `strip()` leaves no whitespace at either end and leaves text without edge whitespace unchanged. |
| `Base.StripWindow` | VoPho/tokenizers/multicoded.py:136 | `strip()` returns one contiguous window of the text; everything before and after the window is whitespace. |
| `Emitter.RunPieces` | VoPho/tokenizers/multicoded.py:117-148 | Definition; its properties are stated by `Emitter.CjkRunTagged`, `Emitter.NonCjkRunIsReference`, `Emitter.WordSpansTrimmed`, `Tokenizer.RunPiecesWellFormed` and `Tokenizer.RunPiecesSorted`. |
| `Emitter.TokenizeMarkup` | VoPho/tokenizers/multicoded.py:113-150 | Definition; its properties are stated by `Segmenter.SplitIsReference`, `Emitter.EmitNoneIsReference`, `Emitter.NonCjkRunIsReference`, `Emitter.CjkRunTagged` and `Emitter.EmitWords`. |
| `Emitter.EmitWords` | VoPho/tokenizers/multicoded.py:128-148 | The untagged pieces the word loop leaves are exactly the words the identifier failed on, in order. |
| `Emitter.EmitNoneIsReference` | VoPho/tokenizers/multicoded.py:125-148 | For alphanumeric words the loop emits the reference pieces. A failing word stands alone and untagged. Each maximal stretch of one detected language becomes one span of its words joined by single spaces. That span is tagged `??` when a failing word ends it. |
| `Emitter.StripTrail` | VoPho/tokenizers/multicoded.py:136-148 | Closing a group of words, each added with a trailing blank, yields the words joined by single spaces. |
| `Emitter.FailStep` | VoPho/tokenizers/multicoded.py:140-145 | A failing word closes the pending group under `??`, goes out untagged, and the loop resumes with no group. |
| `Emitter.FailureMidGroup` | VoPho/tokenizers/multicoded.py:140-145 | When the identifier fails right after a stretch of one language, that stretch becomes a `??` span and the failing word follows untagged. The next word starts afresh. |
| `Emitter.AnsweredThenFailed` | VoPho/tokenizers/multicoded.py:132-145 | Whatever is pending and whatever words come first, a word the identifier answers followed directly by one it fails on puts a `??` span into the output: the answered word leaves a group pending and the failure path closes it under `??`. |
| `Emitter.PunctuationDoesNotCloseGroup` | VoPho/tokenizers/multicoded.py:129-139 | A punctuation word between two words of one language is emitted first, and the two words still share one span. |
| `Emitter.CjkRunTagged` | VoPho/tokenizers/multicoded.py:118-120 | A CJK run becomes one span with the run's text, tagged `ja`, `ko` or `zh`. |
| `Emitter.NonCjkRunIsReference` | VoPho/tokenizers/multicoded.py:123-148 | A non-CJK run splits into alphanumeric words, and its pieces are the reference pieces of those words. |
| `Emitter.RefEmitTags` | VoPho/tokenizers/multicoded.py:132-145 | Every span tag is `??` or a language the identifier returned for one of the words. |
| `Emitter.ReliableDetectorLeavesNoUnknown` | VoPho/tokenizers/multicoded.py:132-145 | If the identifier never fails and never answers `??`, a non-CJK run leaves no untagged word and no `??` span. |
| `Emitter.RefEmitSpansTrimmed` | VoPho/tokenizers/multicoded.py:136-148 | Every reference span over alphanumeric words is non-empty and starts and ends with an alphanumeric character. |
| `Emitter.WordSpansTrimmed` | VoPho/tokenizers/multicoded.py:136-148 | Every span the loop emits for a non-CJK run is non-empty, with no whitespace at either end. |
| `Grouping.Scan` | VoPho/tokenizers/multicoded.py:154-155 | Definition; its properties are stated by `Grouping.ScanOfSpans`, `Grouping.ScanSymbolStep`, `Grouping.ScanSkipsWordsAndSpaces`, `Grouping.UnknownTagIsNotATag` and `Grouping.NewlineBreaksPair`. |
| `Grouping.Content` | VoPho/tokenizers/multicoded.py:163 | Definition; its properties are stated by `Grouping.FirstCloseLike`, `Grouping.ContentOfSafe` and `Grouping.ContentStopsAtForeignClose`. |
| `Grouping.UnwrapPunctuation` | VoPho/tokenizers/multicoded.py:185 | Definition; its properties are stated by `Unwrap.SkipChunk`, `Unwrap.DropMatch` and `Unwrap.UnwrapIsPiecewise`. |
| `Grouping.GroupSegments` | VoPho/tokenizers/multicoded.py:152-185 | Definition; its properties are stated by `Grouping.GroupOfSpansFromNone`, `Grouping.GroupOfWellFormedMarkup`, `Unwrap.GroupOfSortedMarkup`, `Grouping.PunctuationSpanSeparatesGroups`, `Grouping.BareWordVanishes` and `Grouping.UnknownSpanLosesWords`. |
| `Grouping.FindCloseIsFirst` | VoPho/tokenizers/multicoded.py:154 | The lazy `.*?` finds the first occurrence of the closing tag, with no newline before it. It finds nothing only when a newline precedes every occurrence. |
| `Grouping.MatchPair` | VoPho/tokenizers/multicoded.py:154 | A tag-pair match has a word as its name and covers a prefix of the text. |
| `Grouping.FirstCloseLike` | VoPho/tokenizers/multicoded.py:163 | The content search stops at the first `</\w+>` of any name, or at the end. |
| `Grouping.MatchPairOfSpan` | VoPho/tokenizers/multicoded.py:154 | A rendered span with a word tag and safe content is matched as a tag pair holding exactly its content. |
| `Grouping.ContentOfSafe` | VoPho/tokenizers/multicoded.py:163 | The content search returns safe content unchanged. |
| `Grouping.ContentStopsAtForeignClose` | VoPho/tokenizers/multicoded.py:163 | An inner closing tag of another name cuts the content short at that tag. |
| `Grouping.ScanOfSpans` | VoPho/tokenizers/multicoded.py:154-155 | Rendered well-formed spans are read back as their own tag pairs, in order. |
| `Grouping.GroupFrom` | VoPho/tokenizers/multicoded.py:157-181 | Untagged symbols come only before the first span, and no two neighbouring spans share a tag. An open group becomes the first span of the result. |
| `Grouping.GroupKeepsPayload` | VoPho/tokenizers/multicoded.py:161-181 | The visible text of the grouped pieces is the open group's text followed by every match's content or symbol, in order. |
| `Grouping.GroupTags` | VoPho/tokenizers/multicoded.py:161-181 | The span tags of the result are the match names with runs of equal neighbours collapsed. |
| `Grouping.GroupOfSpansFromNone` | VoPho/tokenizers/multicoded.py:157-181 | On the tag pairs of well-formed spans, the grouping loop equals the reference merge of neighbouring same-tag spans. |
| `Grouping.GroupOfWellFormedMarkup` | VoPho/tokenizers/multicoded.py:153-185 | Grouping markup made of well-formed spans gives the two `replace` calls applied to the rendering of the reference merge of neighbouring same-tag spans. |
| `Grouping.PunctuationSpanSeparatesGroups` | VoPho/tokenizers/multicoded.py:161-170 | A `<punctuation>` span between two spans of one language keeps them apart; grouping leaves all three. |
| `Grouping.ScanSymbolStep` | VoPho/tokenizers/multicoded.py:154-155 | A character that is neither a word character nor whitespace, and does not open a tag, is a symbol match of its own. |
| `Grouping.UnknownTagIsNotATag` | VoPho/tokenizers/multicoded.py:154-155 | `<??>` is read as four symbols, not as a tag. |
| `Grouping.ScanSkipsWordsAndSpaces` | VoPho/tokenizers/multicoded.py:154-155 | Word characters and whitespace outside a tag pair produce no match. |
| `Grouping.NewlineBreaksPair` | VoPho/tokenizers/multicoded.py:154 | A span whose content starts with a newline is not matched as a tag pair. |
| `Grouping.BareWordVanishes` | VoPho/tokenizers/multicoded.py:153-185 | An untagged word on its own groups to the empty text. |
| `Grouping.UnknownSpanLosesWords` | VoPho/tokenizers/multicoded.py:153-185 | A `??` span around a word comes out of grouping as `<??></??>`, without the word. |
| `Base.RemoveAll` | VoPho/tokenizers/multicoded.py:185 | `replace(p, '')` never lengthens the text and leaves text without `p` unchanged. |
| `Unwrap.SkipChunk` | VoPho/tokenizers/multicoded.py:185 | `replace(p, '')` copies through a prefix at none of whose offsets `p` starts, and works on the rest independently. |
| `Unwrap.DropMatch` | VoPho/tokenizers/multicoded.py:185 | An occurrence of `p` at the front is deleted and the rest is processed on its own. |
| `Unwrap.UnwrapIsPiecewise` | VoPho/tokenizers/multicoded.py:185 | On spans with word tags whose content holds no `<`, or nothing alphanumeric, the two `replace` calls turn each punctuation span into its bare content and leave every other span, tags and content, as it was. |
| `Unwrap.MergeKeepsTagSorted` | VoPho/tokenizers/multicoded.py:161-181 | Merging neighbouring same-tag spans keeps punctuation spans free of alphanumerics and other spans free of `<`. |
| `Unwrap.GroupOfSortedMarkup` | VoPho/tokenizers/multicoded.py:153-185 | On well-formed spans sorted that way, grouping equals the reference merge followed by unwrapping the punctuation spans: their characters stay in place and every other span is kept whole. |
| `Tokenizer.FindFrom` | VoPho/tokenizers/multicoded.py:29 | The scan for `<??>` returns an offset where it occurs, or none when it occurs nowhere after the start. |
| `Tokenizer.Report` | VoPho/tokenizers/multicoded.py:29-33 | The result is returned unchanged, and the warning is raised iff it contains `<??>`. |
| `Tokenizer.Tokenize` | VoPho/tokenizers/multicoded.py:19-33 | Grouping is applied iff `group` is set, and the warning is raised iff the returned markup contains `<??>`. |
| `Tokenizer.SingleNonCjkRun` | VoPho/tokenizers/multicoded.py:78-107 | Text made only of non-CJK, non-punctuation characters is a single non-CJK run. |
| `Tokenizer.FailureAfterGroupWarns` | VoPho/tokenizers/multicoded.py:26-33 | On plain text whose first words all get one language, if the identifier fails on the word right after them, ungrouped tokenizing raises the warning. |
| `Tokenizer.AnsweredThenFailedWarns` | VoPho/tokenizers/multicoded.py:26-33 | On plain text, if the identifier answers any word and fails on the word right after it, wherever the pair stands, ungrouped tokenizing raises the warning. |
| `Tokenizer.RunPiecesWellFormed` | VoPho/tokenizers/multicoded.py:117-148 | When the identifier always answers with a word, every piece emitted for a run is a span with a word tag and content the grouping pattern reads back unchanged. |
| `Tokenizer.GroupedTokenizeIsMerge` | VoPho/tokenizers/multicoded.py:113-185 | When the identifier always answers with a word, `_tokenize` leaves nothing untagged. Grouped tokenizing gives the two `replace` calls applied to the reference merge of neighbouring same-language spans. |
| `Tokenizer.RunPiecesSorted` | VoPho/tokenizers/multicoded.py:117-148 | When the identifier never answers `punctuation`, each run's punctuation span holds no alphanumeric character and every other span holds no `<`. |
| `Tokenizer.GroupedTokenizeUnwraps` | VoPho/tokenizers/multicoded.py:113-185 | When the identifier always answers with a word other than `punctuation`, grouped tokenizing equals the reference merge of `_tokenize`'s spans with each merged punctuation span replaced by its bare characters and every other span kept whole. |
| `WritingSystems.AnyContains` | VoPho/langtokenizers/multicoded.py:78 | The left-to-right `any` over the ranges holds iff some inclusive range contains the code point. |
| `WritingSystems.IsWritingSystem` | VoPho/langtokenizers/multicoded.py:68-78 | A character belongs to a system iff the system is in the table and some range listed for it contains the code point. |
| `WritingSystems.AbsentSystemNeverMatches` | VoPho/langtokenizers/multicoded.py:78 | A system name missing from the table matches no character. |
| `WritingSystems.IsWritingSystemIsSystemOf` | VoPho/langtokenizers/multicoded.py:8-18 | Table membership agrees with an independent classification by the eight systems' blocks. |
| `WritingSystems.SystemsDisjoint` | VoPho/langtokenizers/multicoded.py:8-18 | A character belongs to at most one writing system. |
| `WritingSystems.CjkTablesAgree` | VoPho/langtokenizers/multicoded.py:9-11 | The zh, ja and ko rows equal the other tokenizer's CJK table, so `is_cjk` holds iff the character is in one of these three systems. |
| `WritingSystems.SplitNonCjkInSegment` | VoPho/langtokenizers/multicoded.py:117-125 | Every token is a word run or a single symbol. The tokens, joined in order, give the input without its whitespace. |
| `WritingSystems.Tokenize` | VoPho/langtokenizers/multicoded.py:146-160 | Grouping is applied iff `group` is set, and the warning is raised iff the result contains `<??>`. |
| `WritingSystems.TokenizersAgree` | VoPho/langtokenizers/multicoded.py:146-160 | Given the first tokenizer's `_tokenize` and `_group_segments`, the two `tokenize` methods return the same thing. |

## Left out

- **Language identification.** `fast_langdetect.detect` is a statistical
  model outside the repository. It is the parameter `detect`, and every
  exception it raises is `None`.
- **Warning and colour output.** `warnings.warn` is a returned flag. The
  colour output of the writing-system tokenizer is not modelled:
  `print_colored_text`, `random_color`, `LANGUAGE_COLORS` and the mutable
  colour cache. It is presentation and randomness.
- **Unicode tables.** The tables behind `str.isalnum`, `str.isspace`, `\w`
  and `\s` are abstract. Only the facts `Valid`, `MarkupChars` and
  `LettersAlnum` are assumed.
- **Lone surrogates.** A Dafny `char` is a Unicode scalar value, so the
  model cannot take the code points U+D800 to U+DFFF, which a Python `str`
  can hold. The source treats such a character as punctuation (neither
  alphanumeric nor whitespace) and gives it its own `<punctuation>` run.
- **Elided bodies.** The bodies of these methods of the writing-system
  tokenizer are not in its source, so they are not reconstructed:
  `detect_japanese_korean_chinese`, `detect_writing_system`,
  `is_punctuation`, `split_text_by_writing_system`, `_tokenize` and
  `_group_segments`. Its `tokenize` takes the last two as parameters.
- **Rest of the repository.** `VoPho/engine.py`,
  `tools/create_heteronym_dict_en.py`, `setup.py` and
  `examples/phonemize_texts.py` are not part of this model. They are
  phonemizer wrappers, dictionary tooling, packaging and a demo.
- **Tokenizer objects.** `Tokenizer.__init__` and the `__main__` demo
  blocks have no behaviour to model.
- `Grouping.GroupOfWellFormedMarkup`: the grouped text is given in closed
  form only for markup made of well-formed spans, and with the pieces
  unwrapped only when punctuation spans hold no alphanumerics and other
  spans no `<` (`Unwrap.GroupOfSortedMarkup`). Markup with untagged words
  or `??` spans is covered by separate lemmas:
  `Grouping.BareWordVanishes`, `Grouping.UnknownSpanLosesWords` and
  `Grouping.UnknownTagIsNotATag`.
- `Tokenizer.GroupedTokenizeIsMerge`: proved only for an identifier that
  always answers with a word. With failures the markup is not well formed,
  and the lemmas listed above describe what happens.
- `Tokenizer.GroupedTokenizeUnwraps`: also assumes the identifier never
  answers `punctuation`. A word tagged `punctuation` would merge with real
  punctuation spans, and the merged content could then spell out a
  `<punctuation>` tag that the `replace` calls delete as well.
- `Emitter.EmitNoneIsReference`: the reference is proved equal to the loop
  only for alphanumeric words. These are the only words a non-CJK run
  produces. The punctuation branch is described separately by
  `Emitter.PunctuationDoesNotCloseGroup`.
- `Base.RemoveAll`: the contract says only that `replace(p, '')` never
  lengthens the text and leaves text without `p` unchanged. Which
  occurrences the single left-to-right pass deletes is given by its
  definition alone.
- `Grouping.MatchPair`: the contract gives only the shape of a match. Which
  text is matched is stated by `Grouping.MatchPairOfSpan`,
  `Grouping.NewlineBreaksPair` and `Grouping.UnknownTagIsNotATag`.
