/** `Tokenizer._tokenize`: every run of the splitter becomes tagged markup.
    CJK runs are tagged by the CJK picker, punctuation runs are wrapped in
    `<punctuation>`, and non-CJK runs are cut into words that the language
    identifier tags one by one, consecutive words of one language sharing a
    span. The identifier is the parameter `detect`; `None` stands for a call
    that raised. */
module Emitter {
  import opened Base
  import opened Unicode
  import opened Cjk
  import opened Segmenter
  import opened WordSplit
  import opened Markup

  /** The pending group closed under its own language. */
  function Flush(u: UnicodeDb, pending: Option<Group>): seq<Piece> {
    if pending.Some? then [Span(pending.value.lang, Strip(u.isSpace, pending.value.text))] else []
  }

  /** The pending group closed under `??`, as the failure path does it. */
  function FlushUnknown(u: UnicodeDb, pending: Option<Group>): seq<Piece> {
    if pending.Some? then [Span("??", Strip(u.isSpace, pending.value.text))] else []
  }

  /** The words the identifier failed on, in order (punctuation words never
      reach the identifier). */
  function FailedWords(u: UnicodeDb, detect: string -> Option<string>, words: seq<string>): seq<string>
    decreases |words|
  {
    if |words| == 0 then []
    else
      var failed := if !IsPunctuation(u, words[0]) && detect(words[0]).None? then [words[0]] else [];
      failed + FailedWords(u, detect, words[1..])
  }

  /** The word loop of `_tokenize` for one non-CJK run, from the given
      pending group on. The untagged pieces it leaves are exactly the words
      the identifier failed on. */
  function EmitWords(u: UnicodeDb, detect: string -> Option<string>, pending: Option<Group>, words: seq<string>)
    : (r: seq<Piece>)
    ensures Bares(r) == FailedWords(u, detect, words)
    decreases |words|
  {
    if |words| == 0 then Flush(u, pending)
    else
      var w := words[0];
      var rest := words[1..];
      if IsPunctuation(u, w) then
        BaresAppend([Span("punctuation", w)], EmitWords(u, detect, pending, rest));
        [Span("punctuation", w)] + EmitWords(u, detect, pending, rest)
      else
        match detect(w)
        case Some(lang) =>
          if pending.Some? && pending.value.lang == lang then
            EmitWords(u, detect, Some(Group(lang, pending.value.text + (w + " "))), rest)
          else
            BaresAppend(Flush(u, pending), EmitWords(u, detect, Some(Group(lang, w + " ")), rest));
            Flush(u, pending) + EmitWords(u, detect, Some(Group(lang, w + " ")), rest)
        case None =>
          BaresAppend(FlushUnknown(u, pending), [Bare(w)]);
          BaresAppend(FlushUnknown(u, pending) + [Bare(w)], EmitWords(u, detect, None, rest));
          FlushUnknown(u, pending) + [Bare(w)] + EmitWords(u, detect, None, rest)
  }

  /** The markup for one run. */
  function RunPieces(u: UnicodeDb, detect: string -> Option<string>, run: Run): seq<Piece> {
    match run.kind
    case CjkRun =>
      var lang := DetectJapaneseKoreanChinese(run.text);
      [Span(lang, run.text)]
    case PunctuationRun => [Span("punctuation", run.text)]
    case NonCjkRun => EmitWords(u, detect, None, Words(u, run.text))
  }

  function AllPieces(u: UnicodeDb, detect: string -> Option<string>, runs: seq<Run>): seq<Piece>
    decreases |runs|
  {
    if |runs| == 0 then [] else RunPieces(u, detect, runs[0]) + AllPieces(u, detect, runs[1..])
  }

  /** The entries of `processed_segments` for `text`. */
  function TokenizePieces(u: UnicodeDb, detect: string -> Option<string>, text: string): seq<Piece> {
    AllPieces(u, detect, SplitCjkNonCjk(u, text))
  }

  /** `Tokenizer._tokenize`. */
  function TokenizeMarkup(u: UnicodeDb, detect: string -> Option<string>, text: string): string {
    RenderAll(TokenizePieces(u, detect, text))
  }

  // ---------------------------------------------------------------------
  // Reference definition of the word loop

  /** Number of leading words the identifier assigns to `lang`. */
  function SameLangPrefix(detect: string -> Option<string>, lang: string, words: seq<string>): (n: nat)
    ensures n <= |words|
    ensures |words| > 0 && detect(words[0]) == Some(lang) ==> n >= 1
    decreases |words|
  {
    if |words| == 0 || detect(words[0]) != Some(lang) then 0
    else 1 + SameLangPrefix(detect, lang, words[1..])
  }

  /** The word loop described group by group, for words none of which is
      punctuation: a failing word stands alone and untagged; otherwise the
      longest stretch of words with the first word's language is one span,
      their texts joined by single spaces, tagged with that language unless
      the stretch is ended by a failing word, which turns its tag into `??`. */
  function RefEmit(detect: string -> Option<string>, words: seq<string>): seq<Piece>
    decreases |words|
  {
    if |words| == 0 then []
    else
      match detect(words[0])
      case None => [Bare(words[0])] + RefEmit(detect, words[1..])
      case Some(lang) =>
        var n := SameLangPrefix(detect, lang, words);
        var tag := if n < |words| && detect(words[n]).None? then "??" else lang;
        [Span(tag, JoinSpaced(words[..n]))] + RefEmit(detect, words[n..])
  }

  /** `current_segment` after adding the words of `g` one by one. */
  function Trail(g: seq<string>): string
    decreases |g|
  {
    if |g| == 0 then "" else Trail(g[..|g| - 1]) + (g[|g| - 1] + " ")
  }

  lemma {:induction false} TrailIsJoinPlusSpace(g: seq<string>)
    requires |g| > 0
    ensures Trail(g) == JoinSpaced(g) + " "
    decreases |g|
  {
    if |g| > 1 {
      TrailIsJoinPlusSpace(g[..|g| - 1]);
      JoinSpacedSnoc(g[..|g| - 1], g[|g| - 1]);
      assert g[..|g| - 1] + [g[|g| - 1]] == g;
    } else {
      assert g[..|g| - 1] == [];
    }
  }

  lemma {:induction false} JoinSpacedSnoc(g: seq<string>, w: string)
    requires |g| > 0
    ensures JoinSpaced(g + [w]) == JoinSpaced(g) + " " + w
    decreases |g|
  {
    if |g| > 1 {
      assert (g + [w])[1..] == g[1..] + [w];
      JoinSpacedSnoc(g[1..], w);
    } else {
      assert g + [w] == [g[0], w];
      assert [g[0], w][1..] == [w];
    }
  }

  lemma {:induction false} JoinSpacedEdges(u: UnicodeDb, g: seq<string>)
    requires |g| > 0
    requires forall i :: 0 <= i < |g| ==> IsAlnumText(u, g[i])
    ensures var j := JoinSpaced(g); |j| > 0 && u.isAlnum(j[0]) && u.isAlnum(j[|j| - 1])
    decreases |g|
  {
    assert IsAlnumText(u, g[0]);
    if |g| > 1 {
      JoinSpacedEdges(u, g[1..]);
    }
  }

  /** Closing a pending group strips the trailing blank: the span holds the
      words joined by single spaces. */
  lemma StripTrail(u: UnicodeDb, g: seq<string>)
    requires Valid(u) && u.isSpace(' ')
    requires |g| > 0
    requires forall i :: 0 <= i < |g| ==> IsAlnumText(u, g[i])
    ensures Strip(u.isSpace, Trail(g)) == JoinSpaced(g)
  {
    var j := JoinSpaced(g);
    TrailIsJoinPlusSpace(g);
    JoinSpacedEdges(u, g);
    assert !u.isSpace(j[0]) && !u.isSpace(j[|j| - 1]);
    var t := j + " ";
    assert StripLeading(u.isSpace, t) == t;
    assert t[..|t| - 1] == j;
    assert StripTrailing(u.isSpace, t) == StripTrailing(u.isSpace, j) == j;
  }

  lemma {:induction false} SameLangPrefixAppend(detect: string -> Option<string>, lang: string, g: seq<string>, words: seq<string>)
    requires forall i :: 0 <= i < |g| ==> detect(g[i]) == Some(lang)
    ensures SameLangPrefix(detect, lang, g + words) == |g| + SameLangPrefix(detect, lang, words)
    decreases |g|
  {
    if |g| > 0 {
      assert (g + words)[0] == g[0];
      assert (g + words)[1..] == g[1..] + words;
      SameLangPrefixAppend(detect, lang, g[1..], words);
    } else {
      assert g + words == words;
    }
  }

  /** The reference closes a stretch `g` of one language at the first word
      of another language or at a failing word. */
  lemma RefEmitGroup(detect: string -> Option<string>, lang: string, g: seq<string>, words: seq<string>)
    requires |g| > 0
    requires forall i :: 0 <= i < |g| ==> detect(g[i]) == Some(lang)
    requires |words| == 0 || detect(words[0]) != Some(lang)
    ensures RefEmit(detect, g + words) ==
      [Span(if |words| > 0 && detect(words[0]).None? then "??" else lang, JoinSpaced(g))] + RefEmit(detect, words)
  {
    var all := g + words;
    assert all[0] == g[0];
    SameLangPrefixAppend(detect, lang, g, words);
    var n := SameLangPrefix(detect, lang, all);
    assert n == |g|;
    assert all[..n] == g;
    assert all[n..] == words;
    if |words| > 0 {
      assert all[n] == words[0];
    }
  }

  /** The loop with a pending group `g` of one language continues exactly
      as the reference does on `g` followed by the remaining words. */
  lemma {:induction false} EmitPendingIsReference(u: UnicodeDb, detect: string -> Option<string>, lang: string,
                                                 g: seq<string>, words: seq<string>)
    requires Valid(u) && u.isSpace(' ')
    requires |g| > 0
    requires forall i :: 0 <= i < |g| ==> detect(g[i]) == Some(lang) && IsAlnumText(u, g[i])
    requires forall i :: 0 <= i < |words| ==> IsAlnumText(u, words[i])
    ensures EmitWords(u, detect, Some(Group(lang, Trail(g))), words) == RefEmit(detect, g + words)
    decreases |words|, 2
  {
    if |words| == 0 {
      StripTrail(u, g);
      RefEmitGroup(detect, lang, g, words);
      assert g + words == g;
    } else if detect(words[0]) == Some(lang) {
      EmitPendingSame(u, detect, lang, g, words);
    } else {
      EmitPendingOther(u, detect, lang, g, words);
    }
  }

  lemma {:induction false} EmitPendingSame(u: UnicodeDb, detect: string -> Option<string>, lang: string,
                                          g: seq<string>, words: seq<string>)
    requires Valid(u) && u.isSpace(' ')
    requires |g| > 0 && |words| > 0 && detect(words[0]) == Some(lang)
    requires forall i :: 0 <= i < |g| ==> detect(g[i]) == Some(lang) && IsAlnumText(u, g[i])
    requires forall i :: 0 <= i < |words| ==> IsAlnumText(u, words[i])
    ensures EmitWords(u, detect, Some(Group(lang, Trail(g))), words) == RefEmit(detect, g + words)
    decreases |words|, 1
  {
    var w := words[0];
    var rest := words[1..];
    assert IsAlnumText(u, w);
    EmitSameLang(u, detect, lang, Trail(g), words);
    var g' := g + [w];
    TrailSnoc(g, w);
    GroupSnoc(u, detect, lang, g, w);
    AlnumDrop(u, words, 1);
    EmitPendingIsReference(u, detect, lang, g', rest);
    assert words == [w] + rest;
    AppendAssoc(g, [w], rest);
  }

  /** A word of the pending group's language joins the group. */
  lemma EmitSameLang(u: UnicodeDb, detect: string -> Option<string>, lang: string, text: string, words: seq<string>)
    requires |words| > 0 && !IsPunctuation(u, words[0]) && detect(words[0]) == Some(lang)
    ensures EmitWords(u, detect, Some(Group(lang, text)), words)
         == EmitWords(u, detect, Some(Group(lang, text + (words[0] + " "))), words[1..])
  {
  }

  lemma TrailSnoc(g: seq<string>, w: string)
    ensures Trail(g + [w]) == Trail(g) + (w + " ")
  {
    var g' := g + [w];
    assert g'[..|g'| - 1] == g && g'[|g'| - 1] == w;
  }

  lemma {:induction false} EmitPendingOther(u: UnicodeDb, detect: string -> Option<string>, lang: string,
                                           g: seq<string>, words: seq<string>)
    requires Valid(u) && u.isSpace(' ')
    requires |g| > 0 && |words| > 0 && detect(words[0]) != Some(lang)
    requires forall i :: 0 <= i < |g| ==> detect(g[i]) == Some(lang) && IsAlnumText(u, g[i])
    requires forall i :: 0 <= i < |words| ==> IsAlnumText(u, words[i])
    ensures EmitWords(u, detect, Some(Group(lang, Trail(g))), words) == RefEmit(detect, g + words)
    decreases |words|, 1
  {
    StripTrail(u, g);
    RefEmitGroup(detect, lang, g, words);
    assert IsAlnumText(u, words[0]);
    if detect(words[0]).None? {
      EmitPendingFail(u, detect, lang, g, words);
    } else {
      EmitPendingSwitch(u, detect, lang, g, words);
    }
  }

  lemma EmitPendingFail(u: UnicodeDb, detect: string -> Option<string>, lang: string,
                        g: seq<string>, words: seq<string>)
    requires Valid(u) && u.isSpace(' ')
    requires |g| > 0 && |words| > 0 && detect(words[0]).None?
    requires forall i :: 0 <= i < |words| ==> IsAlnumText(u, words[i])
    requires Strip(u.isSpace, Trail(g)) == JoinSpaced(g)
    ensures EmitWords(u, detect, Some(Group(lang, Trail(g))), words)
         == [Span("??", JoinSpaced(g)), Bare(words[0])] + RefEmit(detect, words[1..])
    decreases |words|, 0
  {
    var pending := Some(Group(lang, Trail(g)));
    assert IsAlnumText(u, words[0]);
    FailStep(u, detect, pending, words);
    assert FlushUnknown(u, pending) == [Span("??", JoinSpaced(g))];
    EmitNoneIsReference(u, detect, words[1..]);
  }

  /** One failing word: the pending group is closed under `??` and the word
      follows untagged. */
  lemma FailStep(u: UnicodeDb, detect: string -> Option<string>, pending: Option<Group>, words: seq<string>)
    requires |words| > 0 && detect(words[0]).None?
    requires !IsPunctuation(u, words[0])
    ensures EmitWords(u, detect, pending, words)
        == FlushUnknown(u, pending) + [Bare(words[0])] + EmitWords(u, detect, None, words[1..])
  {
  }

  lemma EmitPendingSwitch(u: UnicodeDb, detect: string -> Option<string>, lang: string,
                          g: seq<string>, words: seq<string>)
    requires Valid(u) && u.isSpace(' ')
    requires |g| > 0 && |words| > 0 && detect(words[0]).Some? && detect(words[0]) != Some(lang)
    requires IsAlnumText(u, words[0])
    requires forall i :: 0 <= i < |words| ==> IsAlnumText(u, words[i])
    requires Strip(u.isSpace, Trail(g)) == JoinSpaced(g)
    ensures EmitWords(u, detect, Some(Group(lang, Trail(g))), words)
         == [Span(lang, JoinSpaced(g))] + RefEmit(detect, words)
    decreases |words|, 0
  {
    var w := words[0];
    var l := detect(w).value;
    assert !IsPunctuation(u, w);
    assert EmitWords(u, detect, Some(Group(lang, Trail(g))), words)
        == Flush(u, Some(Group(lang, Trail(g)))) + EmitWords(u, detect, Some(Group(l, w + " ")), words[1..]);
    assert [w][..0] == [];
    assert Trail([w]) == w + " ";
    EmitPendingIsReference(u, detect, l, [w], words[1..]);
    assert [w] + words[1..] == words;
  }

  /** With no pending group, the word loop emits exactly the reference
      pieces; for words that are not punctuation the two definitions agree. */
  lemma {:induction false} EmitNoneIsReference(u: UnicodeDb, detect: string -> Option<string>, words: seq<string>)
    requires Valid(u) && u.isSpace(' ')
    requires forall i :: 0 <= i < |words| ==> IsAlnumText(u, words[i])
    ensures EmitWords(u, detect, None, words) == RefEmit(detect, words)
    decreases |words|, 0
  {
    if |words| > 0 {
      var w := words[0];
      var rest := words[1..];
      assert !IsPunctuation(u, w);
      match detect(w)
      case Some(l) =>
        assert [w][..0] == [];
        assert Trail([w]) == w + " ";
        EmitPendingIsReference(u, detect, l, [w], rest);
        assert [w] + rest == words;
      case None =>
        EmitNoneIsReference(u, detect, rest);
    }
  }

  // ---------------------------------------------------------------------
  // What the loop does to the runs of the splitter

  /** A punctuation word inside a non-CJK run does not end the pending
      group: it is emitted at once, ahead of the group it interrupted, and
      the words around it still share one span. */
  lemma PunctuationDoesNotCloseGroup(u: UnicodeDb, detect: string -> Option<string>,
                                     lang: string, w1: string, p: string, w2: string)
    requires Valid(u) && u.isSpace(' ')
    requires IsAlnumText(u, w1) && IsAlnumText(u, w2) && IsPunctuation(u, p)
    requires detect(w1) == Some(lang) && detect(w2) == Some(lang)
    ensures EmitWords(u, detect, None, [w1, p, w2]) == [Span("punctuation", p), Span(lang, w1 + " " + w2)]
  {
    var words := [w1, p, w2];
    assert !IsPunctuation(u, w1) && !IsPunctuation(u, w2);
    var t := (w1 + " ") + (w2 + " ");
    assert words[1..] == [p, w2];
    assert [p, w2][1..] == [w2];
    assert [w2][1..] == [];
    assert EmitWords(u, detect, Some(Group(lang, w1 + " ")), [w2]) == Flush(u, Some(Group(lang, t)));
    assert EmitWords(u, detect, Some(Group(lang, w1 + " ")), [p, w2])
        == [Span("punctuation", p)] + Flush(u, Some(Group(lang, t)));
    assert EmitWords(u, detect, None, words) == EmitWords(u, detect, Some(Group(lang, w1 + " ")), [p, w2]);
    var g := [w1, w2];
    assert g[..1] == [w1] && [w1][..0] == [];
    assert Trail([w1]) == "" + (w1 + " ") == w1 + " ";
    assert Trail(g) == t;
    assert g[1..] == [w2];
    assert JoinSpaced(g) == w1 + " " + w2;
    StripTrail(u, g);
  }

  /** When the identifier fails on a word that ends a stretch `g` of one
      language, the stretch is closed under `??` and the failing word follows
      untagged; the next word starts afresh. */
  lemma FailureMidGroup(u: UnicodeDb, detect: string -> Option<string>, lang: string,
                        g: seq<string>, w: string, rest: seq<string>)
    requires Valid(u) && u.isSpace(' ')
    requires |g| > 0
    requires forall i :: 0 <= i < |g| ==> detect(g[i]) == Some(lang) && IsAlnumText(u, g[i])
    requires IsAlnumText(u, w) && detect(w).None?
    requires forall i :: 0 <= i < |rest| ==> IsAlnumText(u, rest[i])
    ensures EmitWords(u, detect, None, g + [w] + rest)
         == [Span("??", JoinSpaced(g)), Bare(w)] + EmitWords(u, detect, None, rest)
  {
    var all := g + [w] + rest;
    AllAlnumAppend(u, g, [w]);
    AllAlnumAppend(u, g + [w], rest);
    EmitNoneIsReference(u, detect, all);
    EmitNoneIsReference(u, detect, rest);
    RefEmitFailMidGroup(detect, lang, g, w, rest);
  }

  lemma RefEmitFailMidGroup(detect: string -> Option<string>, lang: string, g: seq<string>, w: string, rest: seq<string>)
    requires |g| > 0
    requires forall i :: 0 <= i < |g| ==> detect(g[i]) == Some(lang)
    requires detect(w).None?
    ensures RefEmit(detect, g + [w] + rest) == [Span("??", JoinSpaced(g)), Bare(w)] + RefEmit(detect, rest)
  {
    var tail := [w] + rest;
    assert tail[0] == w;
    assert g + [w] + rest == g + tail;
    RefEmitGroup(detect, lang, g, tail);
    RefEmitFailing(detect, w, rest);
  }

  lemma RefEmitFailing(detect: string -> Option<string>, w: string, rest: seq<string>)
    requires detect(w).None?
    ensures RefEmit(detect, [w] + rest) == [Bare(w)] + RefEmit(detect, rest)
  {
    assert ([w] + rest)[1..] == rest;
  }

  /** One iteration of the word loop: the pieces it emits, then the loop on
      the remaining words from the group it leaves pending. An answered word
      leaves a group pending; a failing one first flushes the pending group
      under `??` and goes out untagged. */
  lemma EmitStep(u: UnicodeDb, detect: string -> Option<string>, pending: Option<Group>, words: seq<string>)
    returns (b: seq<Piece>, next: Option<Group>)
    requires |words| > 0
    ensures EmitWords(u, detect, pending, words) == b + EmitWords(u, detect, next, words[1..])
    ensures !IsPunctuation(u, words[0]) && detect(words[0]).Some? ==> next.Some?
    ensures !IsPunctuation(u, words[0]) && detect(words[0]).None? ==> b == FlushUnknown(u, pending) + [Bare(words[0])]
  {
    var x := words[0];
    if IsPunctuation(u, x) {
      b, next := [Span("punctuation", x)], pending;
    } else if detect(x).None? {
      b, next := FlushUnknown(u, pending) + [Bare(x)], None;
    } else if pending.Some? && pending.value.lang == detect(x).value {
      b, next := [], Some(Group(detect(x).value, pending.value.text + (x + " ")));
    } else {
      b, next := Flush(u, pending), Some(Group(detect(x).value, x + " "));
    }
  }

  /** Whatever group is pending and whatever words come first, a word the
      identifier answers followed directly by one it fails on closes a span
      under `??`: the answered word leaves a group pending, and the failure
      path flushes it with the unknown tag. `k` is where that span lands. */
  lemma {:induction false} AnsweredThenFailed(u: UnicodeDb, detect: string -> Option<string>, pending: Option<Group>,
                                              pre: seq<string>, v: string, w: string, rest: seq<string>)
    returns (k: nat)
    requires !IsPunctuation(u, v) && detect(v).Some?
    requires !IsPunctuation(u, w) && detect(w).None?
    ensures var r := EmitWords(u, detect, pending, pre + [v, w] + rest);
      k < |r| && r[k].Span? && r[k].tag == "??"
    decreases |pre|
  {
    var words := pre + [v, w] + rest;
    if |pre| == 0 {
      var tail := [w] + rest;
      assert words[0] == v && words[1..] == tail;
      var a, g := EmitStep(u, detect, pending, words);
      assert tail[0] == w && tail[1..] == rest;
      var c, _ := EmitStep(u, detect, g, tail);
      var x := EmitWords(u, detect, None, rest);
      assert c[0] == Span("??", Strip(u.isSpace, g.value.text));
      assert (a + (c + x))[|a|] == c[0];
      k := |a|;
    } else {
      var more := pre[1..];
      assert words[1..] == more + [v, w] + rest;
      var b, next := EmitStep(u, detect, pending, words);
      var k' := AnsweredThenFailed(u, detect, next, more, v, w, rest);
      k := |b| + k';
    }
  }

  lemma AlnumTake(u: UnicodeDb, words: seq<string>, n: nat)
    requires n <= |words|
    requires forall i :: 0 <= i < |words| ==> IsAlnumText(u, words[i])
    ensures forall i :: 0 <= i < n ==> IsAlnumText(u, words[..n][i])
  {
    assert forall i :: 0 <= i < n ==> words[..n][i] == words[i];
  }

  lemma AlnumDrop(u: UnicodeDb, words: seq<string>, n: nat)
    requires n <= |words|
    requires forall i :: 0 <= i < |words| ==> IsAlnumText(u, words[i])
    ensures forall i :: 0 <= i < |words| - n ==> IsAlnumText(u, words[n..][i])
  {
    assert forall i :: 0 <= i < |words| - n ==> words[n..][i] == words[n + i];
  }

  /** A word of the group's language, added to the group, keeps it one
      alphanumeric stretch of that language. */
  lemma GroupSnoc(u: UnicodeDb, detect: string -> Option<string>, lang: string, g: seq<string>, w: string)
    requires forall i :: 0 <= i < |g| ==> detect(g[i]) == Some(lang) && IsAlnumText(u, g[i])
    requires detect(w) == Some(lang) && IsAlnumText(u, w)
    ensures forall i :: 0 <= i < |g| + 1 ==> detect((g + [w])[i]) == Some(lang) && IsAlnumText(u, (g + [w])[i])
  {
    forall i | 0 <= i < |g| + 1
      ensures detect((g + [w])[i]) == Some(lang) && IsAlnumText(u, (g + [w])[i])
    {
      if i < |g| {
        assert (g + [w])[i] == g[i];
      } else {
        assert (g + [w])[i] == w;
      }
    }
  }

  lemma AllAlnumAppend(u: UnicodeDb, a: seq<string>, b: seq<string>)
    requires forall i :: 0 <= i < |a| ==> IsAlnumText(u, a[i])
    requires forall i :: 0 <= i < |b| ==> IsAlnumText(u, b[i])
    ensures forall i :: 0 <= i < |a + b| ==> IsAlnumText(u, (a + b)[i])
  {
    forall i | 0 <= i < |a + b|
      ensures IsAlnumText(u, (a + b)[i])
    {
      if i < |a| {
        assert (a + b)[i] == a[i];
      } else {
        assert (a + b)[i] == b[i - |a|];
      }
    }
  }

  /** A CJK run of the splitter becomes one span tagged `ja`, `ko` or `zh`;
      it is never tagged `??`. */
  lemma CjkRunTagged(u: UnicodeDb, detect: string -> Option<string>, run: Run)
    requires WellFormedRun(u, run) && run.kind == CjkRun
    ensures |RunPieces(u, detect, run)| == 1
    ensures var p := RunPieces(u, detect, run)[0];
      p.Span? && p.content == run.text && p.tag in {"ja", "ko", "zh"}
  {
    assert forall i :: 0 <= i < |run.text| ==> KindOf(u, run.text[i]) == CjkRun;
    CjkRunResolved(run.text);
  }

  /** A non-CJK run holds only alphanumerics and whitespace, so its words
      are alphanumeric and the loop emits exactly the reference pieces. */
  lemma NonCjkRunIsReference(u: UnicodeDb, detect: string -> Option<string>, run: Run)
    requires Valid(u) && u.isSpace(' ')
    requires WellFormedRun(u, run) && run.kind == NonCjkRun
    ensures RunPieces(u, detect, run) == RefEmit(detect, Words(u, run.text))
    ensures forall i :: 0 <= i < |Words(u, run.text)| ==> IsAlnumText(u, Words(u, run.text)[i])
  {
    forall i | 0 <= i < |run.text|
      ensures u.isAlnum(run.text[i]) || u.isSpace(run.text[i])
    {
      assert KindOf(u, run.text[i]) == NonCjkRun;
      PunctuationChar(u, run.text[i]);
    }
    AlnumTextWords(u, run.text);
    EmitNoneIsReference(u, detect, Words(u, run.text));
  }

  /** The spans of the reference emitter carry only languages the identifier
      returned, or `??`. */
  lemma {:induction false} RefEmitTags(detect: string -> Option<string>, words: seq<string>, i: nat)
    requires i < |Tags(RefEmit(detect, words))|
    ensures var t := Tags(RefEmit(detect, words))[i];
      t == "??" || exists j :: 0 <= j < |words| && detect(words[j]) == Some(t)
    decreases |words|
  {
    var r := RefEmit(detect, words);
    match detect(words[0])
    case None =>
      TagsAppend([Bare(words[0])], RefEmit(detect, words[1..]));
      RefEmitTags(detect, words[1..], i);
      var t := Tags(r)[i];
      if t != "??" {
        var j :| 0 <= j < |words[1..]| && detect(words[1..][j]) == Some(t);
        assert words[j + 1] == words[1..][j];
      }
    case Some(lang) =>
      var n := SameLangPrefix(detect, lang, words);
      var tag := if n < |words| && detect(words[n]).None? then "??" else lang;
      TagsAppend([Span(tag, JoinSpaced(words[..n]))], RefEmit(detect, words[n..]));
      if i > 0 {
        RefEmitTags(detect, words[n..], i - 1);
        var t := Tags(r)[i];
        if t != "??" {
          var j :| 0 <= j < |words[n..]| && detect(words[n..][j]) == Some(t);
          assert words[j + n] == words[n..][j];
        }
      }
  }

  /** If the identifier never fails, no word is left untagged and no span is
      tagged `??` by the word loop of a non-CJK run. */
  lemma ReliableDetectorLeavesNoUnknown(u: UnicodeDb, detect: string -> Option<string>, run: Run)
    requires Valid(u) && u.isSpace(' ')
    requires WellFormedRun(u, run) && run.kind == NonCjkRun
    requires forall w :: detect(w).Some? && detect(w).value != "??"
    ensures Bares(RunPieces(u, detect, run)) == []
    ensures forall i :: 0 <= i < |Tags(RunPieces(u, detect, run))| ==> Tags(RunPieces(u, detect, run))[i] != "??"
  {
    NonCjkRunIsReference(u, detect, run);
    var words := Words(u, run.text);
    NoFailures(u, detect, words);
    forall i | 0 <= i < |Tags(RunPieces(u, detect, run))|
      ensures Tags(RunPieces(u, detect, run))[i] != "??"
    {
      RefEmitTags(detect, words, i);
      RefEmitNeverUnknown(detect, words, i);
    }
  }

  lemma {:induction false} NoFailures(u: UnicodeDb, detect: string -> Option<string>, words: seq<string>)
    requires forall w :: detect(w).Some?
    ensures FailedWords(u, detect, words) == []
    decreases |words|
  {
    if |words| > 0 {
      NoFailures(u, detect, words[1..]);
    }
  }

  /** With an identifier that never fails, the reference tags every stretch
      with its own language. */
  lemma {:induction false} RefEmitNeverUnknown(detect: string -> Option<string>, words: seq<string>, i: nat)
    requires forall w :: detect(w).Some? && detect(w).value != "??"
    requires i < |Tags(RefEmit(detect, words))|
    ensures Tags(RefEmit(detect, words))[i] != "??"
    decreases |words|
  {
    var lang := detect(words[0]).value;
    var n := SameLangPrefix(detect, lang, words);
    TagsAppend([Span(lang, JoinSpaced(words[..n]))], RefEmit(detect, words[n..]));
    if i > 0 {
      RefEmitNeverUnknown(detect, words[n..], i - 1);
    }
  }

  /** Every span of the reference emitter over alphanumeric words holds
      text that starts and ends with an alphanumeric character, so it has no
      leading or trailing whitespace. */
  lemma {:induction false} RefEmitSpansTrimmed(u: UnicodeDb, detect: string -> Option<string>,
                                              words: seq<string>, i: nat)
    requires forall k :: 0 <= k < |words| ==> IsAlnumText(u, words[k])
    requires i < |RefEmit(detect, words)| && RefEmit(detect, words)[i].Span?
    ensures var c := RefEmit(detect, words)[i].content; |c| > 0 && u.isAlnum(c[0]) && u.isAlnum(c[|c| - 1])
    decreases |words|
  {
    var head, n := RefEmitFront(detect, words);
    var later := RefEmit(detect, words[n..]);
    if i == 0 {
      assert RefEmit(detect, words)[0] == head;
      AlnumTake(u, words, n);
      JoinSpacedEdges(u, words[..n]);
    } else {
      assert RefEmit(detect, words)[i] == later[i - 1];
      AlnumDrop(u, words, n);
      RefEmitSpansTrimmed(u, detect, words[n..], i - 1);
    }
  }

  /** The first piece of the reference and how many words it consumes: a
      span holds those words joined by single spaces. */
  lemma RefEmitFront(detect: string -> Option<string>, words: seq<string>) returns (head: Piece, n: nat)
    requires |words| > 0
    ensures 0 < n <= |words|
    ensures RefEmit(detect, words) == [head] + RefEmit(detect, words[n..])
    ensures head.Span? ==> head.content == JoinSpaced(words[..n])
  {
    match detect(words[0])
    case None =>
      head, n := Bare(words[0]), 1;
    case Some(lang) =>
      n := SameLangPrefix(detect, lang, words);
      var tag := if n < |words| && detect(words[n]).None? then "??" else lang;
      head := Span(tag, JoinSpaced(words[..n]));
  }

  /** The spans the word loop emits for a non-CJK run hold the words joined
      by single blanks, with no whitespace at either end. */
  lemma WordSpansTrimmed(u: UnicodeDb, detect: string -> Option<string>, run: Run, i: nat)
    requires Valid(u) && u.isSpace(' ')
    requires WellFormedRun(u, run) && run.kind == NonCjkRun
    requires i < |RunPieces(u, detect, run)| && RunPieces(u, detect, run)[i].Span?
    ensures var c := RunPieces(u, detect, run)[i].content; |c| > 0 && !u.isSpace(c[0]) && !u.isSpace(c[|c| - 1])
  {
    NonCjkRunIsReference(u, detect, run);
    RefEmitSpansTrimmed(u, detect, Words(u, run.text), i);
  }
}
