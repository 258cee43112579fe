/** `Tokenizer.tokenize`: the markup of `_tokenize`, grouped on request, and
    the warning raised when the result holds an unknown-language tag. The
    warning is returned as a flag. */
module Tokenizer {
  import opened Base
  import opened Unicode
  import opened Cjk
  import opened Segmenter
  import opened WordSplit
  import opened Markup
  import opened Emitter
  import opened Grouping
  import opened Unwrap

  /** What `tokenize` returns, and whether it called `warnings.warn`. */
  datatype Tokenized = Tokenized(markup: string, warned: bool)

  /** Left-to-right search for `p` in `s` from offset `i`: Python's `in`
      answered by scanning. */
  function FindFrom(s: string, p: string, i: nat): (r: Option<nat>)
    requires i <= |s| + 1
    ensures r.Some? ==> i <= r.value <= |s| && StartsWithAt(s, r.value, p)
    ensures r.None? ==> forall j :: i <= j <= |s| ==> !StartsWithAt(s, j, p)
    decreases |s| + 1 - i
  {
    if i > |s| then None
    else if StartsWithAt(s, i, p) then Some(i)
    else FindFrom(s, p, i + 1)
  }

  /** The scan finds `p` exactly when `p` occurs somewhere in `s`. */
  lemma FindIsContains(s: string, p: string)
    ensures FindFrom(s, p, 0).Some? <==> Contains(s, p)
  {
  }

  /** The unknown-language tag the warning looks for. */
  const UnknownTag: string := "<??>"

  /** `tokenize(text, group)`: the warning is raised exactly when the
      returned markup contains `<??>`, and grouping is applied exactly when
      `group` is set. */
  function Tokenize(u: UnicodeDb, detect: string -> Option<string>, text: string, group: bool): (r: Tokenized)
    ensures r.warned <==> Contains(r.markup, UnknownTag)
    ensures group ==> r.markup == GroupSegments(u, TokenizeMarkup(u, detect, text))
    ensures !group ==> r.markup == TokenizeMarkup(u, detect, text)
  {
    var result := TokenizeMarkup(u, detect, text);
    Report(if group then GroupSegments(u, result) else result)
  }

  /** The final check of `tokenize`: `result` is returned, and the warning
      is raised when it contains `<??>`. */
  function Report(result: string): (r: Tokenized)
    ensures r.markup == result
    ensures r.warned <==> Contains(result, UnknownTag)
  {
    FindIsContains(result, UnknownTag);
    Tokenized(result, FindFrom(result, UnknownTag, 0).Some?)
  }

  // ---------------------------------------------------------------------
  // Ungrouped output: a failure in the middle of a group is reported

  /** Text of non-CJK, non-punctuation characters is one non-CJK run. */
  lemma SingleNonCjkRun(u: UnicodeDb, text: string)
    requires |text| > 0
    requires forall i :: 0 <= i < |text| ==> KindOf(u, text[i]) == NonCjkRun
    ensures SplitCjkNonCjk(u, text) == [Run(text, NonCjkRun)]
  {
    var runs := [Run(text, NonCjkRun)];
    assert runs[1..] == [];
    assert Flatten(runs) == text + "";
    assert Segmentation(u, runs, text);
    SegmentationUnique(u, runs, text);
    SplitIsReference(u, text);
  }

  /** If the identifier assigns the first words of a plain-text input one
      language and then fails on a word, the ungrouped result carries a `??`
      span and the warning is raised. */
  lemma FailureAfterGroupWarns(u: UnicodeDb, detect: string -> Option<string>, text: string,
                               lang: string, g: seq<string>, w: string, rest: seq<string>)
    requires Valid(u) && u.isSpace(' ')
    requires |text| > 0
    requires forall i :: 0 <= i < |text| ==> KindOf(u, text[i]) == NonCjkRun
    requires Words(u, text) == g + [w] + rest
    requires |g| > 0 && forall i :: 0 <= i < |g| ==> detect(g[i]) == Some(lang)
    requires detect(w).None?
    ensures Tokenize(u, detect, text, false).warned
  {
    var j := JoinSpaced(g);
    var tail := [Bare(w)] + EmitWords(u, detect, None, rest);
    FailurePieces(u, detect, text, lang, g, w, rest);
    LeadingUnknownSpan(j, tail);
    UngroupedWarnsOnUnknown(u, detect, text);
  }

  /** On plain text, if the identifier answers some word and fails on the
      word right after it, wherever the pair stands, the ungrouped result
      carries a `??` span and the warning is raised. */
  lemma AnsweredThenFailedWarns(u: UnicodeDb, detect: string -> Option<string>, text: string,
                                pre: seq<string>, v: string, w: string, rest: seq<string>)
    requires Valid(u) && u.isSpace(' ')
    requires |text| > 0
    requires forall i :: 0 <= i < |text| ==> KindOf(u, text[i]) == NonCjkRun
    requires Words(u, text) == pre + [v, w] + rest
    requires detect(v).Some? && detect(w).None?
    ensures Tokenize(u, detect, text, false).warned
  {
    var ws := Words(u, text);
    PiecesOfPlainText(u, detect, text);
    assert ws[|pre|] == v && ws[|pre| + 1] == w;
    var k := AnsweredThenFailed(u, detect, None, pre, v, w, rest);
    UnknownSpanAnywhere(TokenizePieces(u, detect, text), k);
    UngroupedWarnsOnUnknown(u, detect, text);
  }

  /** Markup with a `??` span anywhere contains the unknown tag. */
  lemma {:induction false} UnknownSpanAnywhere(ps: seq<Piece>, k: nat)
    requires k < |ps| && ps[k].Span? && ps[k].tag == "??"
    ensures Contains(RenderAll(ps), UnknownTag)
    decreases k
  {
    var tail := ps[1..];
    assert ps == [ps[0]] + tail;
    if k == 0 {
      LeadingUnknownSpan(ps[0].content, tail);
    } else {
      assert tail[k - 1] == ps[k];
      UnknownSpanAnywhere(tail, k - 1);
      var m, n := Render(ps[0]), RenderAll(tail);
      assert RenderAll(ps) == m + n;
      var i :| 0 <= i <= |n| && StartsWithAt(n, i, UnknownTag);
      StartsWithAfter(m, n, i, UnknownTag);
    }
  }

  /** An occurrence in `n` is one in `m + n`, shifted by `|m|`. */
  lemma StartsWithAfter(m: string, n: string, i: nat, p: string)
    requires StartsWithAt(n, i, p)
    ensures StartsWithAt(m + n, |m| + i, p)
  {
    assert (m + n)[|m| + i..|m| + i + |p|] == n[i..i + |p|];
  }

  /** The pieces behind the warning: the stretch closed under `??`, then
      the failing word. */
  lemma FailurePieces(u: UnicodeDb, detect: string -> Option<string>, text: string,
                      lang: string, g: seq<string>, w: string, rest: seq<string>)
    requires Valid(u) && u.isSpace(' ')
    requires |text| > 0
    requires forall i :: 0 <= i < |text| ==> KindOf(u, text[i]) == NonCjkRun
    requires Words(u, text) == g + [w] + rest
    requires |g| > 0 && forall i :: 0 <= i < |g| ==> detect(g[i]) == Some(lang)
    requires detect(w).None?
    ensures TokenizePieces(u, detect, text)
         == [Span("??", JoinSpaced(g))] + ([Bare(w)] + EmitWords(u, detect, None, rest))
  {
    var ws := Words(u, text);
    PiecesOfPlainText(u, detect, text);
    AlnumParts(u, ws, g, w, rest);
    FailureMidGroup(u, detect, lang, g, w, rest);
    var a, b := Span("??", JoinSpaced(g)), Bare(w);
    var x := EmitWords(u, detect, None, rest);
    assert [a, b] == [a] + [b];
    AppendAssoc([a], [b], x);
  }

  /** Without grouping, the warning is raised exactly when the markup of
      `_tokenize` contains the unknown tag. */
  lemma UngroupedWarnsOnUnknown(u: UnicodeDb, detect: string -> Option<string>, text: string)
    ensures Tokenize(u, detect, text, false).warned <==> Contains(TokenizeMarkup(u, detect, text), UnknownTag)
  {
  }

  /** On plain text the pieces are those of the word loop over its words,
      and the words are alphanumeric. */
  lemma PiecesOfPlainText(u: UnicodeDb, detect: string -> Option<string>, text: string)
    requires Valid(u) && u.isSpace(' ')
    requires |text| > 0
    requires forall i :: 0 <= i < |text| ==> KindOf(u, text[i]) == NonCjkRun
    ensures TokenizePieces(u, detect, text) == EmitWords(u, detect, None, Words(u, text))
    ensures forall i :: 0 <= i < |Words(u, text)| ==> IsAlnumText(u, Words(u, text)[i])
  {
    var run := Run(text, NonCjkRun);
    SingleNonCjkRun(u, text);
    NonCjkRunIsReference(u, detect, run);
    AllPiecesSingle(u, detect, run);
  }

  lemma AllPiecesSingle(u: UnicodeDb, detect: string -> Option<string>, run: Run)
    ensures AllPieces(u, detect, [run]) == RunPieces(u, detect, run)
  {
    assert [run][1..] == [];
  }

  /** Markup that opens with a `??` span contains the unknown tag. */
  lemma LeadingUnknownSpan(j: string, tail: seq<Piece>)
    ensures Contains(RenderAll([Span("??", j)] + tail), UnknownTag)
  {
    var ps := [Span("??", j)] + tail;
    assert ps[0] == Span("??", j);
    var m := RenderAll(ps);
    var head := Render(Span("??", j));
    assert m == head + RenderAll(ps[1..]);
    assert OpenTag("??") == UnknownTag;
    assert head == UnknownTag + (j + CloseTag("??"));
    assert m[..4] == head[..4] == UnknownTag;
    assert StartsWithAt(m, 0, UnknownTag);
  }

  lemma AlnumParts(u: UnicodeDb, ws: seq<string>, g: seq<string>, w: string, rest: seq<string>)
    requires ws == g + [w] + rest
    requires forall i :: 0 <= i < |ws| ==> IsAlnumText(u, ws[i])
    ensures forall i :: 0 <= i < |g| ==> IsAlnumText(u, g[i])
    ensures IsAlnumText(u, w)
    ensures forall i :: 0 <= i < |rest| ==> IsAlnumText(u, rest[i])
  {
    assert forall i :: 0 <= i < |g| ==> ws[i] == g[i];
    assert ws[|g|] == w;
    assert forall i :: 0 <= i < |rest| ==> ws[|g| + 1 + i] == rest[i];
  }

  // ---------------------------------------------------------------------
  // Grouped output with an identifier that always answers

  /** No character that could start a tag or stop the pattern's `.`. */
  predicate NoMarkupChar(s: string) {
    forall i :: 0 <= i < |s| ==> s[i] != '<' && s[i] != '\n'
  }

  lemma AlnumNoMarkup(u: UnicodeDb, s: string)
    requires Valid(u) && MarkupChars(u)
    requires IsAlnumText(u, s)
    ensures NoMarkupChar(s)
  {
    forall i | 0 <= i < |s|
      ensures s[i] != '<' && s[i] != '\n'
    {
      assert u.isWord(s[i]);
    }
  }

  lemma {:induction false} JoinSpacedNoMarkup(g: seq<string>)
    requires forall i :: 0 <= i < |g| ==> NoMarkupChar(g[i])
    ensures NoMarkupChar(JoinSpaced(g))
    decreases |g|
  {
    if |g| > 1 {
      JoinSpacedNoMarkup(g[1..]);
      assert NoMarkupChar(g[0]);
      var t := g[0] + " " + JoinSpaced(g[1..]);
      forall i | 0 <= i < |t|
        ensures t[i] != '<' && t[i] != '\n'
      {
        if i < |g[0]| {
          assert t[i] == g[0][i];
        } else if i > |g[0]| {
          assert t[i] == JoinSpaced(g[1..])[i - |g[0]| - 1];
        }
      }
    } else if |g| == 1 {
      assert NoMarkupChar(g[0]);
    }
  }

  /** Every language code the identifier answers is a word, and it always
      answers. */
  ghost predicate ReliableDetector(u: UnicodeDb, detect: string -> Option<string>) {
    forall w :: detect(w).Some? && IsWordText(u, detect(w).value)
  }

  lemma {:induction false} RefEmitWellFormed(u: UnicodeDb, detect: string -> Option<string>, words: seq<string>)
    requires Valid(u) && MarkupChars(u) && ReliableDetector(u, detect)
    requires forall i :: 0 <= i < |words| ==> IsAlnumText(u, words[i])
    ensures forall i :: 0 <= i < |RefEmit(detect, words)| ==> WellFormedSpan(u, RefEmit(detect, words)[i])
    decreases |words|
  {
    if |words| > 0 {
      var lang := detect(words[0]).value;
      var n := SameLangPrefix(detect, lang, words);
      var g := words[..n];
      forall i | 0 <= i < |g|
        ensures NoMarkupChar(g[i])
      {
        AlnumNoMarkup(u, words[i]);
      }
      JoinSpacedNoMarkup(g);
      var head := Span(lang, JoinSpaced(g));
      assert WellFormedSpan(u, head);
      assert forall i :: 0 <= i < |words[n..]| ==> words[n..][i] == words[n + i];
      RefEmitWellFormed(u, detect, words[n..]);
      SpansAppend(u, [head], RefEmit(detect, words[n..]));
    }
  }

  lemma SpansAppend(u: UnicodeDb, a: seq<Piece>, b: seq<Piece>)
    requires forall i :: 0 <= i < |a| ==> WellFormedSpan(u, a[i])
    requires forall i :: 0 <= i < |b| ==> WellFormedSpan(u, b[i])
    ensures forall i :: 0 <= i < |a + b| ==> WellFormedSpan(u, (a + b)[i])
  {
    forall i | 0 <= i < |a + b|
      ensures WellFormedSpan(u, (a + b)[i])
    {
      if i < |a| {
        assert (a + b)[i] == a[i];
      } else {
        assert (a + b)[i] == b[i - |a|];
      }
    }
  }

  /** Each run of the splitter becomes well-formed spans when the identifier
      always answers. */
  lemma RunPiecesWellFormed(u: UnicodeDb, detect: string -> Option<string>, run: Run)
    requires Valid(u) && MarkupChars(u) && ReliableDetector(u, detect)
    requires WellFormedRun(u, run)
    ensures forall i :: 0 <= i < |RunPieces(u, detect, run)| ==> WellFormedSpan(u, RunPieces(u, detect, run)[i])
  {
    match run.kind
    case CjkRun =>
      CjkRunTagged(u, detect, run);
      var lang := DetectJapaneseKoreanChinese(run.text);
      LowercaseIsWord(u, lang);
      forall i | 0 <= i < |run.text|
        ensures run.text[i] != '<' && run.text[i] != '\n'
      {
        assert KindOf(u, run.text[i]) == CjkRun;
        IsCjkBounds(run.text[i]);
      }
    case PunctuationRun =>
      LowercaseIsWord(u, "punctuation");
      var c := run.text[0];
      assert KindOf(u, c) == PunctuationRun;
      assert IsSpaceText(u, ['\n']);
      assert c != '\n';
    case NonCjkRun =>
      NonCjkRunIsReference(u, detect, run);
      RefEmitWellFormed(u, detect, Words(u, run.text));
  }

  lemma {:induction false} AllPiecesWellFormed(u: UnicodeDb, detect: string -> Option<string>, runs: seq<Run>)
    requires Valid(u) && MarkupChars(u) && ReliableDetector(u, detect)
    requires forall i :: 0 <= i < |runs| ==> WellFormedRun(u, runs[i])
    ensures forall i :: 0 <= i < |AllPieces(u, detect, runs)| ==> WellFormedSpan(u, AllPieces(u, detect, runs)[i])
    decreases |runs|
  {
    if |runs| > 0 {
      RunPiecesWellFormed(u, detect, runs[0]);
      assert forall i :: 0 <= i < |runs[1..]| ==> runs[1..][i] == runs[i + 1];
      AllPiecesWellFormed(u, detect, runs[1..]);
      SpansAppend(u, RunPieces(u, detect, runs[0]), AllPieces(u, detect, runs[1..]));
    }
  }

  /** End to end: when the identifier always answers with a word, every
      piece `_tokenize` emits is a tagged span, and grouping its markup
      merges neighbouring spans of one language and then removes the
      punctuation tags, leaving their characters in place. */
  lemma GroupedTokenizeIsMerge(u: UnicodeDb, detect: string -> Option<string>, text: string)
    requires Valid(u) && MarkupChars(u) && ReliableDetector(u, detect)
    ensures Bares(TokenizePieces(u, detect, text)) == []
    ensures Tokenize(u, detect, text, true).markup
         == UnwrapPunctuation(RenderAll(MergeAdjacent(TokenizePieces(u, detect, text))))
  {
    var runs := SplitCjkNonCjk(u, text);
    var ps := TokenizePieces(u, detect, text);
    AllPiecesWellFormed(u, detect, runs);
    NoBares(u, ps);
    GroupOfWellFormedMarkup(u, ps);
  }

  lemma {:induction false} NoBares(u: UnicodeDb, ps: seq<Piece>)
    requires forall i :: 0 <= i < |ps| ==> WellFormedSpan(u, ps[i])
    ensures Bares(ps) == []
    decreases |ps|
  {
    if |ps| > 0 {
      assert WellFormedSpan(u, ps[0]);
      assert forall i :: 0 <= i < |ps[1..]| ==> ps[1..][i] == ps[i + 1];
      NoBares(u, ps[1..]);
    }
  }

  /** The identifier never answers with the tag the emitter gives
      punctuation. */
  ghost predicate NoPunctuationAnswer(detect: string -> Option<string>) {
    forall w :: detect(w) != Some("punctuation")
  }

  lemma {:induction false} RefEmitSorted(u: UnicodeDb, detect: string -> Option<string>, words: seq<string>)
    requires Valid(u) && MarkupChars(u) && ReliableDetector(u, detect) && NoPunctuationAnswer(detect)
    requires forall i :: 0 <= i < |words| ==> IsAlnumText(u, words[i])
    ensures forall i :: 0 <= i < |RefEmit(detect, words)| ==> TagSorted(u, RefEmit(detect, words)[i])
    decreases |words|
  {
    if |words| > 0 {
      var lang := detect(words[0]).value;
      var n := SameLangPrefix(detect, lang, words);
      var g := words[..n];
      forall i | 0 <= i < |g|
        ensures NoMarkupChar(g[i])
      {
        AlnumNoMarkup(u, words[i]);
      }
      JoinSpacedNoMarkup(g);
      var head := Span(lang, JoinSpaced(g));
      assert TagSorted(u, head);
      assert forall i :: 0 <= i < |words[n..]| ==> words[n..][i] == words[n + i];
      RefEmitSorted(u, detect, words[n..]);
      SortedAppend(u, [head], RefEmit(detect, words[n..]));
    }
  }

  /** Each run of the splitter becomes sorted spans: punctuation under the
      punctuation tag, no `<` under a language tag. */
  lemma RunPiecesSorted(u: UnicodeDb, detect: string -> Option<string>, run: Run)
    requires Valid(u) && MarkupChars(u) && ReliableDetector(u, detect) && NoPunctuationAnswer(detect)
    requires WellFormedRun(u, run)
    ensures forall i :: 0 <= i < |RunPieces(u, detect, run)| ==> TagSorted(u, RunPieces(u, detect, run)[i])
  {
    match run.kind
    case CjkRun =>
      CjkRunTagged(u, detect, run);
      var lang := DetectJapaneseKoreanChinese(run.text);
      LowercaseIsWord(u, lang);
      forall i | 0 <= i < |run.text|
        ensures run.text[i] != '<'
      {
        assert KindOf(u, run.text[i]) == CjkRun;
        IsCjkBounds(run.text[i]);
      }
    case PunctuationRun =>
      LowercaseIsWord(u, "punctuation");
      var c := run.text[0];
      assert KindOf(u, c) == PunctuationRun;
      PunctuationChar(u, c);
    case NonCjkRun =>
      NonCjkRunIsReference(u, detect, run);
      RefEmitSorted(u, detect, Words(u, run.text));
  }

  lemma {:induction false} AllPiecesSorted(u: UnicodeDb, detect: string -> Option<string>, runs: seq<Run>)
    requires Valid(u) && MarkupChars(u) && ReliableDetector(u, detect) && NoPunctuationAnswer(detect)
    requires forall i :: 0 <= i < |runs| ==> WellFormedRun(u, runs[i])
    ensures forall i :: 0 <= i < |AllPieces(u, detect, runs)| ==> TagSorted(u, AllPieces(u, detect, runs)[i])
    decreases |runs|
  {
    if |runs| > 0 {
      RunPiecesSorted(u, detect, runs[0]);
      assert forall i :: 0 <= i < |runs[1..]| ==> runs[1..][i] == runs[i + 1];
      AllPiecesSorted(u, detect, runs[1..]);
      SortedAppend(u, RunPieces(u, detect, runs[0]), AllPieces(u, detect, runs[1..]));
    }
  }

  /** End to end, in terms of pieces: when the identifier always answers
      with a word other than the punctuation tag, grouping the tokenized
      markup merges neighbouring spans of one language, turns the merged
      punctuation spans into their bare characters and leaves every other
      span whole. */
  lemma GroupedTokenizeUnwraps(u: UnicodeDb, detect: string -> Option<string>, text: string)
    requires Valid(u) && MarkupChars(u) && ReliableDetector(u, detect) && NoPunctuationAnswer(detect) && LettersAlnum(u)
    ensures Tokenize(u, detect, text, true).markup
         == RenderAll(Unwrapped(MergeAdjacent(TokenizePieces(u, detect, text))))
  {
    var runs := SplitCjkNonCjk(u, text);
    var ps := TokenizePieces(u, detect, text);
    GroupedTokenizeIsMerge(u, detect, text);
    AllPiecesSorted(u, detect, runs);
    MergeKeepsTagSorted(u, ps);
    UnwrapIsPiecewise(u, MergeAdjacent(ps));
  }
}
