/** `Tokenizer.split_cjk_non_cjk`: the left-to-right scan that cuts text into
    CJK runs, non-CJK runs and one-character punctuation runs. */
module Segmenter {
  import opened Base
  import opened Unicode
  import opened Cjk

  /** The second component of the source's `(segment, type)` pairs. */
  datatype RunKind = CjkRun | NonCjkRun | PunctuationRun

  datatype Run = Run(text: string, kind: RunKind)

  /** Which run a character joins; the punctuation test comes first, so a
      punctuation character inside a CJK block is still punctuation. */
  function KindOf(u: UnicodeDb, c: char): RunKind {
    if IsPunctuation(u, [c]) then PunctuationRun
    else if IsCjk(c) then CjkRun
    else NonCjkRun
  }

  /** The run texts joined back together. */
  function Flatten(runs: seq<Run>): string
    decreases |runs|
  {
    if |runs| == 0 then "" else runs[0].text + Flatten(runs[1..])
  }

  lemma {:induction false} FlattenAppend(a: seq<Run>, b: seq<Run>)
    ensures Flatten(a + b) == Flatten(a) + Flatten(b)
    decreases |a|
  {
    if |a| == 0 {
      assert a + b == b;
    } else {
      assert (a + b)[1..] == a[1..] + b;
      FlattenAppend(a[1..], b);
    }
  }

  /** A run is non-empty, all its characters are of its kind, and a
      punctuation run holds one character. */
  predicate WellFormedRun(u: UnicodeDb, r: Run) {
    && |r.text| > 0
    && (forall i :: 0 <= i < |r.text| ==> KindOf(u, r.text[i]) == r.kind)
    && (r.kind == PunctuationRun ==> |r.text| == 1)
  }

  /** Two neighbouring runs share a kind only when both are punctuation. */
  predicate NoSameNeighbours(runs: seq<Run>) {
    forall i :: 0 <= i < |runs| - 1 && runs[i].kind == runs[i + 1].kind ==> runs[i].kind == PunctuationRun
  }

  /** `runs` cuts `text` into well-formed runs with no two CJK (or two
      non-CJK) runs side by side. */
  predicate Segmentation(u: UnicodeDb, runs: seq<Run>, text: string) {
    && Flatten(runs) == text
    && (forall i :: 0 <= i < |runs| ==> WellFormedRun(u, runs[i]))
    && NoSameNeighbours(runs)
  }

  /** The loop variables `segments`, `current_segment` and `current_type`. */
  datatype SplitState = SplitState(runs: seq<Run>, current: string, currentKind: Option<RunKind>)

  /** `current_type` is None exactly while `current_segment` is empty. */
  predicate Consistent(st: SplitState) {
    (st.current == "") <==> st.currentKind.None?
  }

  /** One iteration of the loop of `split_cjk_non_cjk`. */
  function Step(u: UnicodeDb, st: SplitState, c: char): (r: SplitState)
    requires Consistent(st)
    ensures Consistent(r)
    ensures r.current == "" <==> IsPunctuation(u, [c])
  {
    if IsPunctuation(u, [c]) then
      var runs := if st.current != "" then st.runs + [Run(st.current, st.currentKind.value)] else st.runs;
      SplitState(runs + [Run([c], PunctuationRun)], "", None)
    else if IsCjk(c) then
      if st.currentKind == Some(NonCjkRun) then SplitState(st.runs + [Run(st.current, NonCjkRun)], [c], Some(CjkRun))
      else SplitState(st.runs, st.current + [c], Some(CjkRun))
    else
      if st.currentKind == Some(CjkRun) then SplitState(st.runs + [Run(st.current, CjkRun)], [c], Some(NonCjkRun))
      else SplitState(st.runs, st.current + [c], Some(NonCjkRun))
  }

  /** What the loop keeps true after consuming `text`. */
  ghost predicate LoopInv(u: UnicodeDb, st: SplitState, text: string) {
    && Consistent(st)
    && Flatten(st.runs) + st.current == text
    && (forall i :: 0 <= i < |st.runs| ==> WellFormedRun(u, st.runs[i]))
    && NoSameNeighbours(st.runs)
    && (st.currentKind.None? ==> |st.runs| == 0 || st.runs[|st.runs| - 1].kind == PunctuationRun)
    && (st.currentKind.Some? ==>
          && st.currentKind.value != PunctuationRun
          && (forall i :: 0 <= i < |st.current| ==> KindOf(u, st.current[i]) == st.currentKind.value)
          && (|st.runs| > 0 ==> st.runs[|st.runs| - 1].kind != st.currentKind.value))
  }

  lemma StepKeepsInv(u: UnicodeDb, st: SplitState, text: string, c: char)
    requires LoopInv(u, st, text)
    ensures LoopInv(u, Step(u, st, c), text + [c])
  {
    if IsPunctuation(u, [c]) {
      PunctuationStepKeepsInv(u, st, text, c);
    } else if IsCjk(c) {
      LetterStepKeepsInv(u, st, text, c, CjkRun, NonCjkRun);
    } else {
      LetterStepKeepsInv(u, st, text, c, NonCjkRun, CjkRun);
    }
  }

  lemma PunctuationStepKeepsInv(u: UnicodeDb, st: SplitState, text: string, c: char)
    requires LoopInv(u, st, text)
    requires IsPunctuation(u, [c])
    ensures LoopInv(u, Step(u, st, c), text + [c])
  {
    var runs := if st.current != "" then st.runs + [Run(st.current, st.currentKind.value)] else st.runs;
    if st.current != "" {
      FlattenAppend(st.runs, [Run(st.current, st.currentKind.value)]);
    }
    FlattenAppend(runs, [Run([c], PunctuationRun)]);
    assert [c][0] == c;
    assert WellFormedRun(u, Run([c], PunctuationRun));
    assert Step(u, st, c) == SplitState(runs + [Run([c], PunctuationRun)], "", None);
  }

  /** A letter of kind `k`: it extends the current run, or closes a run of
      the other kind `other` and starts a new one. */
  lemma LetterStepKeepsInv(u: UnicodeDb, st: SplitState, text: string, c: char, k: RunKind, other: RunKind)
    requires LoopInv(u, st, text)
    requires KindOf(u, c) == k && k != PunctuationRun
    requires other != PunctuationRun && other != k
    ensures LoopInv(u, Step(u, st, c), text + [c])
  {
    if st.currentKind == Some(other) {
      FlattenAppend(st.runs, [Run(st.current, other)]);
      assert Step(u, st, c) == SplitState(st.runs + [Run(st.current, other)], [c], Some(k));
    } else {
      assert Step(u, st, c) == SplitState(st.runs, st.current + [c], Some(k));
    }
  }

  /** The loop state once every character of `text` has been consumed. */
  function SplitLoop(u: UnicodeDb, text: string): (st: SplitState)
    ensures Consistent(st)
    ensures LoopInv(u, st, text)
    decreases |text|
  {
    if |text| == 0 then SplitState([], "", None)
    else
      var prefix := text[..|text| - 1];
      var st := SplitLoop(u, prefix);
      StepKeepsInv(u, st, prefix, text[|text| - 1]);
      assert prefix + [text[|text| - 1]] == text;
      Step(u, st, text[|text| - 1])
  }

  /** `split_cjk_non_cjk`: the loop, then the last pending run. */
  function SplitCjkNonCjk(u: UnicodeDb, text: string): (runs: seq<Run>)
    ensures Segmentation(u, runs, text)
    ensures text == "" ==> runs == []
  {
    var st := SplitLoop(u, text);
    if st.current != "" then
      FlattenAppend(st.runs, [Run(st.current, st.currentKind.value)]);
      st.runs + [Run(st.current, st.currentKind.value)]
    else st.runs
  }

  /** Length of the longest prefix of `s` whose characters are all of kind
      `k`. */
  function PrefixLen(u: UnicodeDb, s: string, k: RunKind): (n: nat)
    ensures n <= |s|
    decreases |s|
  {
    if |s| == 0 || KindOf(u, s[0]) != k then 0 else 1 + PrefixLen(u, s[1..], k)
  }

  lemma {:induction false} PrefixLenExact(u: UnicodeDb, s: string, k: RunKind, m: nat)
    requires m <= |s|
    requires forall i :: 0 <= i < m ==> KindOf(u, s[i]) == k
    requires m == |s| || KindOf(u, s[m]) != k
    ensures PrefixLen(u, s, k) == m
    decreases m
  {
    if m > 0 {
      assert KindOf(u, s[0]) == k;
      assert forall i :: 0 <= i < m - 1 ==> s[1..][i] == s[i + 1];
      PrefixLenExact(u, s[1..], k, m - 1);
    }
  }

  lemma {:induction false} PrefixLenKind(u: UnicodeDb, s: string, k: RunKind)
    ensures forall i :: 0 <= i < PrefixLen(u, s, k) ==> KindOf(u, s[i]) == k
    decreases |s|
  {
    if |s| > 0 && KindOf(u, s[0]) == k {
      PrefixLenKind(u, s[1..], k);
      assert forall i :: 1 <= i < PrefixLen(u, s, k) ==> s[i] == s[1..][i - 1];
    }
  }

  /** Reference definition of the cut, independent of the loop: each
      punctuation character alone, otherwise the longest stretch of
      characters of the first character's kind. */
  function RefRuns(u: UnicodeDb, text: string): seq<Run>
    decreases |text|
  {
    if |text| == 0 then []
    else
      var n := RefLen(u, text);
      [Run(text[..n], KindOf(u, text[0]))] + RefRuns(u, text[n..])
  }

  /** Length of the first reference run: one for punctuation, otherwise the
      stretch of the first character's kind. */
  function RefLen(u: UnicodeDb, text: string): (n: nat)
    requires |text| > 0
    ensures 0 < n <= |text|
  {
    var k := KindOf(u, text[0]);
    if k == PunctuationRun then 1
    else
      PrefixLenKind(u, text, k);
      PrefixLen(u, text, k)
  }

  /** Only one list of runs is a segmentation of a given text: the reference
      one. */
  lemma {:induction false} SegmentationUnique(u: UnicodeDb, runs: seq<Run>, text: string)
    requires Segmentation(u, runs, text)
    ensures runs == RefRuns(u, text)
    decreases |text|
  {
    if |runs| > 0 {
      SegmentationHead(u, runs, text);
      var m := |runs[0].text|;
      SegmentationTail(u, runs, text);
      SegmentationUnique(u, runs[1..], text[m..]);
      assert runs == [runs[0]] + runs[1..];
    }
  }

  /** The first run of a segmentation is the first reference run. */
  lemma SegmentationHead(u: UnicodeDb, runs: seq<Run>, text: string)
    requires Segmentation(u, runs, text) && |runs| > 0
    ensures |text| > 0
    ensures runs[0] == Run(text[..RefLen(u, text)], KindOf(u, text[0]))
  {
    assert WellFormedRun(u, runs[0]);
    var r0 := runs[0];
    var tail := runs[1..];
    var m := |r0.text|;
    assert text == r0.text + Flatten(tail);
    assert text[..m] == r0.text;
    assert text[0] == r0.text[0];
    var k := KindOf(u, text[0]);
    if k != PunctuationRun {
      assert forall i :: 0 <= i < m ==> text[i] == r0.text[i];
      if m < |text| {
        assert |tail| > 0;
        assert WellFormedRun(u, tail[0]);
        assert Flatten(tail) == tail[0].text + Flatten(tail[1..]);
        assert text[m] == tail[0].text[0];
        assert runs[0].kind != runs[1].kind;
      }
      PrefixLenExact(u, text, k, m);
    }
  }

  /** The runs after the first segment the rest of the text. */
  lemma SegmentationTail(u: UnicodeDb, runs: seq<Run>, text: string)
    requires Segmentation(u, runs, text) && |runs| > 0
    ensures |runs[0].text| <= |text|
    ensures Segmentation(u, runs[1..], text[|runs[0].text|..])
  {
    var tail := runs[1..];
    assert text == runs[0].text + Flatten(tail);
    assert text[|runs[0].text|..] == Flatten(tail);
    assert forall i :: 0 <= i < |tail| ==> tail[i] == runs[i + 1];
  }

  /** The loop computes exactly the reference cut. */
  lemma SplitIsReference(u: UnicodeDb, text: string)
    ensures SplitCjkNonCjk(u, text) == RefRuns(u, text)
  {
    SegmentationUnique(u, SplitCjkNonCjk(u, text), text);
  }

  /** Every punctuation character of the input is a run of its own, tagged
      punctuation; every other run carries no punctuation. */
  lemma PunctuationIsolated(u: UnicodeDb, text: string, i: nat)
    requires i < |SplitCjkNonCjk(u, text)|
    ensures var r := SplitCjkNonCjk(u, text)[i];
      (r.kind == PunctuationRun <==> IsPunctuation(u, [r.text[0]])) &&
      (r.kind == PunctuationRun ==> |r.text| == 1) &&
      (r.kind != PunctuationRun ==> forall j :: 0 <= j < |r.text| ==> !IsPunctuation(u, [r.text[j]]))
  {
    var r := SplitCjkNonCjk(u, text)[i];
    assert WellFormedRun(u, r);
    assert KindOf(u, r.text[0]) == r.kind;
  }

  /** A CJK run holds only CJK characters, a non-CJK run only characters
      that are neither CJK nor punctuation, and two neighbouring runs that
      are not both punctuation differ in kind. */
  lemma RunContents(u: UnicodeDb, text: string, i: nat)
    requires i < |SplitCjkNonCjk(u, text)|
    ensures var runs := SplitCjkNonCjk(u, text); var r := runs[i];
      && |r.text| > 0
      && (r.kind == CjkRun ==> forall j :: 0 <= j < |r.text| ==> IsCjk(r.text[j]) && !IsPunctuation(u, [r.text[j]]))
      && (r.kind == NonCjkRun ==> forall j :: 0 <= j < |r.text| ==> !IsCjk(r.text[j]) && !IsPunctuation(u, [r.text[j]]))
      && (i + 1 < |runs| && r.kind != PunctuationRun ==> r.kind != runs[i + 1].kind)
  {
    var r := SplitCjkNonCjk(u, text)[i];
    assert WellFormedRun(u, r);
  }
}
