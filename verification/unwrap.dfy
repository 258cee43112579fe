/** The last step of `Tokenizer._group_segments`: the two `str.replace`
    calls that delete `<punctuation>` and `</punctuation>` from the grouped
    markup. On markup built from spans whose content cannot be read as one of
    those tags, the two passes turn each punctuation span into its bare
    content and leave every other span as it was. */
module Unwrap {
  import opened Base
  import opened Unicode
  import opened Markup
  import opened Grouping

  /** A punctuation span becomes its content; any other piece stays. */
  function UnwrapPiece(p: Piece): Piece {
    if p.Span? && p.tag == "punctuation" then Bare(p.content) else p
  }

  /** The pieces with every punctuation span unwrapped. */
  function Unwrapped(ps: seq<Piece>): seq<Piece>
    decreases |ps|
  {
    if |ps| == 0 then [] else [UnwrapPiece(ps[0])] + Unwrapped(ps[1..])
  }

  /** No `<` in `s`. */
  predicate NoLt(s: string) {
    forall i :: 0 <= i < |s| ==> s[i] != '<'
  }

  /** No alphanumeric character in `s`. */
  predicate NoAlnum(u: UnicodeDb, s: string) {
    forall i :: 0 <= i < |s| ==> !u.isAlnum(s[i])
  }

  /** A span with a word for a tag whose content holds no `<`, or nothing
      alphanumeric: neither tag the replace calls look for can be read
      inside such content, since both need a letter right after their `<`
      or `</`. */
  predicate Unwrappable(u: UnicodeDb, p: Piece) {
    p.Span? && IsWordText(u, p.tag) && (NoLt(p.content) || NoAlnum(u, p.content))
  }

  /** The markup between the two replace calls: punctuation spans have lost
      their opening tag. */
  function HalfOpened(p: Piece): string {
    if p.Span? && p.tag == "punctuation" then p.content + CloseTag("punctuation") else Render(p)
  }

  function HalfUnwrapped(ps: seq<Piece>): string
    decreases |ps|
  {
    if |ps| == 0 then "" else HalfOpened(ps[0]) + HalfUnwrapped(ps[1..])
  }

  // ---------------------------------------------------------------------
  // `str.replace` over a concatenation

  /** `p` occurs nowhere in `x + y` at an offset inside `x`. */
  predicate NoMatchIn(x: string, y: string, p: string) {
    forall i :: 0 <= i < |x| ==> !StartsWithAt(x + y, i, p)
  }

  /** A prefix in which `p` starts nowhere is copied through. */
  lemma {:induction false} SkipChunk(x: string, y: string, p: string)
    requires |p| > 0 && NoMatchIn(x, y, p)
    ensures RemoveAll(x + y, p) == x + RemoveAll(y, p)
    decreases |x|
  {
    if |x| == 0 {
      assert x + y == y;
    } else {
      NoMatchInTail(x, y, p);
      SkipChunk(x[1..], y, p);
      SkipOne(x, y, p);
    }
  }

  lemma SkipOne(x: string, y: string, p: string)
    requires |p| > 0 && |x| > 0 && !StartsWithAt(x + y, 0, p)
    requires RemoveAll(x[1..] + y, p) == x[1..] + RemoveAll(y, p)
    ensures RemoveAll(x + y, p) == x + RemoveAll(y, p)
  {
    var h, xs := [x[0]], x[1..];
    var r := RemoveAll(y, p);
    assert x == h + xs;
    AppendAssoc(h, xs, y);
    KeepHead(x[0], xs + y, p);
    assert RemoveAll(x + y, p) == h + (xs + r);
    AppendAssoc(h, xs, r);
  }

  lemma NoMatchInTail(x: string, y: string, p: string)
    requires |x| > 0 && NoMatchIn(x, y, p)
    ensures !StartsWithAt(x + y, 0, p)
    ensures NoMatchIn(x[1..], y, p)
  {
    var s := x + y;
    assert s[1..] == x[1..] + y;
    forall i | 0 <= i < |x[1..]|
      ensures !StartsWithAt(x[1..] + y, i, p)
    {
      ShiftMatch(s, i, p);
    }
  }

  lemma ShiftMatch(s: string, i: nat, p: string)
    requires i < |s|
    ensures StartsWithAt(s, i + 1, p) == StartsWithAt(s[1..], i, p)
  {
    if i + 1 + |p| <= |s| {
      assert s[i + 1..i + 1 + |p|] == s[1..][i..i + |p|];
    }
  }

  lemma KeepHead(c: char, t: string, p: string)
    requires |p| > 0 && !StartsWithAt([c] + t, 0, p)
    ensures RemoveAll([c] + t, p) == [c] + RemoveAll(t, p)
  {
    assert ([c] + t)[1..] == t;
  }

  /** An occurrence at the front is deleted. */
  lemma DropMatch(p: string, y: string)
    requires |p| > 0
    ensures RemoveAll(p + y, p) == RemoveAll(y, p)
  {
    assert (p + y)[0..|p|] == p;
    assert (p + y)[|p|..] == y;
  }

  lemma MismatchAt(s: string, i: nat, p: string, k: nat)
    requires k < |p| && i + k < |s| && s[i + k] != p[k]
    ensures !StartsWithAt(s, i, p)
  {
    if i + |p| <= |s| {
      assert s[i..i + |p|][k] == s[i + k];
    }
  }

  /** A chunk whose only `<` is its first character, where `p` does not
      start. */
  lemma HeadOnly(x: string, y: string, p: string)
    requires |p| > 0 && p[0] == '<'
    requires |x| > 0 ==> !StartsWithAt(x + y, 0, p)
    requires forall i :: 1 <= i < |x| ==> x[i] != '<'
    ensures NoMatchIn(x, y, p)
  {
    forall i | 0 < i < |x|
      ensures !StartsWithAt(x + y, i, p)
    {
      assert (x + y)[i] == x[i];
      MismatchAt(x + y, i, p, 0);
    }
  }

  /** Span content of either kind hides no occurrence of a tag `p` that has
      a letter at offset `w`, when what follows the content starts with `w`
      characters that are not alphanumeric. */
  lemma ContentNoMatch(u: UnicodeDb, c: string, y: string, p: string, w: nat)
    requires w < |p| && p[0] == '<' && u.isAlnum(p[w])
    requires w <= |y| && forall k :: 0 <= k < w ==> !u.isAlnum(y[k])
    requires NoLt(c) || NoAlnum(u, c)
    ensures NoMatchIn(c, y, p)
  {
    var s := c + y;
    forall i | 0 <= i < |c|
      ensures !StartsWithAt(s, i, p)
    {
      if NoLt(c) {
        assert s[i] == c[i];
        MismatchAt(s, i, p, 0);
      } else if i + w < |s| {
        if i + w < |c| {
          assert s[i + w] == c[i + w];
        } else {
          assert s[i + w] == y[i + w - |c|];
        }
        MismatchAt(s, i, p, w);
      }
    }
  }

  // ---------------------------------------------------------------------
  // Tags that are not the one being deleted

  /** Tags with different word names differ within the shorter one. */
  lemma NamesDiffer(u: UnicodeDb, pre: string, t: string, n: string, rest: string)
    requires MarkupChars(u) && IsWordText(u, t) && IsWordText(u, n) && t != n
    ensures !StartsWithAt(pre + t + ">" + rest, 0, pre + n + ">")
  {
    var s := pre + t + ">" + rest;
    var p := pre + n + ">";
    var a := |pre|;
    if |t| < |n| {
      assert s[a + |t|] == '>';
      assert p[a + |t|] == n[|t|];
      MismatchAt(s, 0, p, a + |t|);
    } else if |n| < |t| {
      assert s[a + |n|] == t[|n|];
      assert p[a + |n|] == '>';
      MismatchAt(s, 0, p, a + |n|);
    } else {
      assert exists k :: 0 <= k < |t| && t[k] != n[k];
      var k :| 0 <= k < |t| && t[k] != n[k];
      assert s[a + k] == t[k];
      assert p[a + k] == n[k];
      MismatchAt(s, 0, p, a + k);
    }
  }

  lemma OpenIsNotClose(u: UnicodeDb, t: string, n: string, rest: string)
    requires MarkupChars(u) && IsWordText(u, t)
    ensures !StartsWithAt(OpenTag(t) + rest, 0, CloseTag(n))
  {
    assert (OpenTag(t) + rest)[1] == t[0];
    MismatchAt(OpenTag(t) + rest, 0, CloseTag(n), 1);
  }

  lemma CloseIsNotOpen(u: UnicodeDb, t: string, n: string, rest: string)
    requires MarkupChars(u) && IsWordText(u, n)
    ensures !StartsWithAt(CloseTag(t) + rest, 0, OpenTag(n))
  {
    assert OpenTag(n)[1] == n[0];
    MismatchAt(CloseTag(t) + rest, 0, OpenTag(n), 1);
  }

  /** A tag with a word name has `<` only in front. */
  lemma TagsHaveOneLt(u: UnicodeDb, t: string)
    requires MarkupChars(u) && IsWordText(u, t)
    ensures forall i :: 1 <= i < |OpenTag(t)| ==> OpenTag(t)[i] != '<'
    ensures forall i :: 1 <= i < |CloseTag(t)| ==> CloseTag(t)[i] != '<'
  {
    forall i | 1 <= i < |OpenTag(t)|
      ensures OpenTag(t)[i] != '<'
    {
      if i <= |t| {
        assert OpenTag(t)[i] == t[i - 1];
      }
    }
    forall i | 1 <= i < |CloseTag(t)|
      ensures CloseTag(t)[i] != '<'
    {
      if 2 <= i <= |t| + 1 {
        assert CloseTag(t)[i] == t[i - 2];
      }
    }
  }

  /** A span in which `p` starts nowhere is copied through whole. */
  lemma SpanSkipped(t: string, c: string, rest: string, p: string)
    requires |p| > 0
    requires NoMatchIn(OpenTag(t), c + (CloseTag(t) + rest), p)
    requires NoMatchIn(c, CloseTag(t) + rest, p)
    requires NoMatchIn(CloseTag(t), rest, p)
    ensures RemoveAll(Render(Span(t, c)) + rest, p) == Render(Span(t, c)) + RemoveAll(rest, p)
  {
    var o, e := OpenTag(t), CloseTag(t);
    var tail := RemoveAll(rest, p);
    SkipChunk(e, rest, p);
    SkipChunk(c, e + rest, p);
    SkipChunk(o, c + (e + rest), p);
    assert Render(Span(t, c)) == o + c + e;
    AppendAssoc(o + c, e, rest);
    AppendAssoc(o, c, e + rest);
    AppendAssoc(o + c, e, tail);
    AppendAssoc(o, c, e + tail);
  }

  // ---------------------------------------------------------------------
  // The two passes

  /** The letters and symbols of the two tags the replace calls delete. */
  lemma PunctuationTags(u: UnicodeDb)
    requires Valid(u) && MarkupChars(u) && LettersAlnum(u)
    ensures IsWordText(u, "punctuation")
    ensures OpenTag("punctuation") == "<punctuation>" && CloseTag("punctuation") == "</punctuation>"
    ensures u.isAlnum(OpenTag("punctuation")[1]) && u.isAlnum(CloseTag("punctuation")[2])
    ensures !u.isAlnum('<') && !u.isAlnum('/')
  {
    LowercaseIsWord(u, "punctuation");
  }

  /** Deleting `<punctuation>` from one span followed by `rest`. */
  lemma FirstPassStep(u: UnicodeDb, q: Piece, rest: string)
    requires Valid(u) && MarkupChars(u) && LettersAlnum(u) && Unwrappable(u, q)
    ensures RemoveAll(Render(q) + rest, OpenTag("punctuation"))
         == HalfOpened(q) + RemoveAll(rest, OpenTag("punctuation"))
  {
    PunctuationTags(u);
    var n := "punctuation";
    var p := OpenTag(n);
    var t, c := q.tag, q.content;
    TagsHaveOneLt(u, t);
    HeadOnly(CloseTag(t), rest, p) by {
      CloseIsNotOpen(u, t, n, rest);
    }
    ContentNoMatch(u, c, CloseTag(t) + rest, p, 1);
    if t == n {
      var e := CloseTag(t);
      var tail := RemoveAll(rest, p);
      assert Render(q) == p + c + e;
      AppendAssoc(p + c, e, rest);
      AppendAssoc(p, c, e + rest);
      DropMatch(p, c + (e + rest));
      SkipChunk(c, e + rest, p);
      SkipChunk(e, rest, p);
      assert HalfOpened(q) == c + e;
      AppendAssoc(c, e, tail);
    } else {
      HeadOnly(OpenTag(t), c + (CloseTag(t) + rest), p) by {
        NamesDiffer(u, "<", t, n, c + (CloseTag(t) + rest));
      }
      SpanSkipped(t, c, rest, p);
    }
  }

  /** Deleting `</punctuation>` from one half-opened span followed by
      `rest`. */
  lemma SecondPassStep(u: UnicodeDb, q: Piece, rest: string)
    requires Valid(u) && MarkupChars(u) && LettersAlnum(u) && Unwrappable(u, q)
    ensures RemoveAll(HalfOpened(q) + rest, CloseTag("punctuation"))
         == Render(UnwrapPiece(q)) + RemoveAll(rest, CloseTag("punctuation"))
  {
    PunctuationTags(u);
    var n := "punctuation";
    var p := CloseTag(n);
    var t, c := q.tag, q.content;
    ContentNoMatch(u, c, CloseTag(t) + rest, p, 2);
    if t == n {
      assert HalfOpened(q) + rest == c + (p + rest);
      SkipChunk(c, p + rest, p);
      DropMatch(p, rest);
    } else {
      TagsHaveOneLt(u, t);
      HeadOnly(OpenTag(t), c + (CloseTag(t) + rest), p) by {
        OpenIsNotClose(u, t, n, c + (CloseTag(t) + rest));
      }
      HeadOnly(CloseTag(t), rest, p) by {
        NamesDiffer(u, "</", t, n, rest);
      }
      SpanSkipped(t, c, rest, p);
    }
  }

  lemma {:induction false} FirstPass(u: UnicodeDb, ps: seq<Piece>)
    requires Valid(u) && MarkupChars(u) && LettersAlnum(u)
    requires forall i :: 0 <= i < |ps| ==> Unwrappable(u, ps[i])
    ensures RemoveAll(RenderAll(ps), OpenTag("punctuation")) == HalfUnwrapped(ps)
    decreases |ps|
  {
    if |ps| > 0 {
      assert forall i :: 0 <= i < |ps[1..]| ==> ps[1..][i] == ps[i + 1];
      FirstPass(u, ps[1..]);
      FirstPassStep(u, ps[0], RenderAll(ps[1..]));
    }
  }

  lemma {:induction false} SecondPass(u: UnicodeDb, ps: seq<Piece>)
    requires Valid(u) && MarkupChars(u) && LettersAlnum(u)
    requires forall i :: 0 <= i < |ps| ==> Unwrappable(u, ps[i])
    ensures RemoveAll(HalfUnwrapped(ps), CloseTag("punctuation")) == RenderAll(Unwrapped(ps))
    decreases |ps|
  {
    if |ps| > 0 {
      assert forall i :: 0 <= i < |ps[1..]| ==> ps[1..][i] == ps[i + 1];
      SecondPass(u, ps[1..]);
      SecondPassStep(u, ps[0], HalfUnwrapped(ps[1..]));
      assert Unwrapped(ps)[1..] == Unwrapped(ps[1..]);
    }
  }

  /** The two replace calls unwrap exactly the punctuation spans: their
      content stays in place, and every other span keeps both its tags and
      its content. */
  lemma UnwrapIsPiecewise(u: UnicodeDb, ps: seq<Piece>)
    requires Valid(u) && MarkupChars(u) && LettersAlnum(u)
    requires forall i :: 0 <= i < |ps| ==> Unwrappable(u, ps[i])
    ensures UnwrapPunctuation(RenderAll(ps)) == RenderAll(Unwrapped(ps))
  {
    PunctuationTags(u);
    FirstPass(u, ps);
    SecondPass(u, ps);
  }

  // ---------------------------------------------------------------------
  // Markup whose punctuation spans hold only punctuation

  /** A span whose content fits its tag: nothing alphanumeric under the
      punctuation tag, no `<` under any other tag. */
  predicate TagSorted(u: UnicodeDb, p: Piece) {
    && p.Span? && IsWordText(u, p.tag)
    && (if p.tag == "punctuation" then NoAlnum(u, p.content) else NoLt(p.content))
  }

  /** Joining the contents of two spans with one tag keeps the span sorted. */
  lemma SortedJoin(u: UnicodeDb, a: Piece, b: Piece)
    requires TagSorted(u, a) && TagSorted(u, b) && a.tag == b.tag
    ensures TagSorted(u, Span(a.tag, a.content + b.content))
  {
    var c := a.content + b.content;
    forall i | 0 <= i < |c|
      ensures c[i] == (if i < |a.content| then a.content[i] else b.content[i - |a.content|])
    {
    }
  }

  lemma SortedAppend(u: UnicodeDb, a: seq<Piece>, b: seq<Piece>)
    requires forall i :: 0 <= i < |a| ==> TagSorted(u, a[i])
    requires forall i :: 0 <= i < |b| ==> TagSorted(u, b[i])
    ensures forall i :: 0 <= i < |a + b| ==> TagSorted(u, (a + b)[i])
  {
    forall i | 0 <= i < |a + b|
      ensures TagSorted(u, (a + b)[i])
    {
      if i < |a| {
        assert (a + b)[i] == a[i];
      } else {
        assert (a + b)[i] == b[i - |a|];
      }
    }
  }

  /** Merging neighbouring spans of one tag keeps every span sorted. */
  lemma {:induction false} MergeKeepsTagSorted(u: UnicodeDb, ps: seq<Piece>)
    requires forall i :: 0 <= i < |ps| ==> TagSorted(u, ps[i])
    ensures forall i :: 0 <= i < |MergeAdjacent(ps)| ==> TagSorted(u, MergeAdjacent(ps)[i])
    decreases |ps|
  {
    if |ps| > 1 {
      assert forall i :: 0 <= i < |ps[1..]| ==> ps[1..][i] == ps[i + 1];
      if ps[0].Span? && ps[1].Span? && ps[0].tag == ps[1].tag {
        var m := Span(ps[0].tag, ps[0].content + ps[1].content);
        SortedJoin(u, ps[0], ps[1]);
        assert forall i :: 0 <= i < |ps[2..]| ==> ps[2..][i] == ps[i + 2];
        SortedAppend(u, [m], ps[2..]);
        MergeKeepsTagSorted(u, [m] + ps[2..]);
      } else {
        MergeKeepsTagSorted(u, ps[1..]);
        SortedAppend(u, [ps[0]], MergeAdjacent(ps[1..]));
      }
    }
  }

  /** `_group_segments` on markup of sorted spans: neighbouring spans of one
      language merge, and the merged punctuation spans lose their tags while
      their characters stay in place. */
  lemma GroupOfSortedMarkup(u: UnicodeDb, ps: seq<Piece>)
    requires Valid(u) && MarkupChars(u) && LettersAlnum(u)
    requires forall i :: 0 <= i < |ps| ==> WellFormedSpan(u, ps[i]) && TagSorted(u, ps[i])
    ensures GroupSegments(u, RenderAll(ps)) == RenderAll(Unwrapped(MergeAdjacent(ps)))
  {
    GroupOfWellFormedMarkup(u, ps);
    MergeKeepsTagSorted(u, ps);
    UnwrapIsPiecewise(u, MergeAdjacent(ps));
  }
}
