/** The tagged markup both passes produce: `<lang>content</lang>` spans and
    untagged text, kept as a list of pieces until it is rendered. */
module Markup {
  import opened Base

  /** One entry of the source's `processed_segments` / `grouped_segments`
      lists: a tagged span, or text appended as it is. */
  datatype Piece = Span(tag: string, content: string) | Bare(text: string)

  /** A group being collected: the source's `current_lang` together with its
      `current_segment` (or `current_content`). The two are set together
      and, in `_tokenize`, cleared together, so one optional value stands
      for both. */
  datatype Group = Group(lang: string, text: string)

  function OpenTag(tag: string): string {
    "<" + tag + ">"
  }

  function CloseTag(tag: string): string {
    "</" + tag + ">"
  }

  /** `f"<{tag}>{content}</{tag}>"`, or the bare text. */
  function Render(p: Piece): string {
    match p
    case Span(tag, content) => OpenTag(tag) + content + CloseTag(tag)
    case Bare(text) => text
  }

  /** `''.join(...)` over rendered pieces. */
  function RenderAll(ps: seq<Piece>): string
    decreases |ps|
  {
    if |ps| == 0 then "" else Render(ps[0]) + RenderAll(ps[1..])
  }

  lemma {:induction false} RenderAllAppend(a: seq<Piece>, b: seq<Piece>)
    ensures RenderAll(a + b) == RenderAll(a) + RenderAll(b)
    decreases |a|
  {
    if |a| == 0 {
      assert a + b == b;
    } else {
      assert (a + b)[1..] == a[1..] + b;
      RenderAllAppend(a[1..], b);
    }
  }

  /** The texts of the untagged pieces, in order. */
  function Bares(ps: seq<Piece>): seq<string>
    decreases |ps|
  {
    if |ps| == 0 then []
    else (if ps[0].Bare? then [ps[0].text] else []) + Bares(ps[1..])
  }

  lemma {:induction false} BaresAppend(a: seq<Piece>, b: seq<Piece>)
    ensures Bares(a + b) == Bares(a) + Bares(b)
    decreases |a|
  {
    if |a| == 0 {
      assert a + b == b;
    } else {
      assert (a + b)[1..] == a[1..] + b;
      BaresAppend(a[1..], b);
    }
  }

  /** The tags of the spans, in order. */
  function Tags(ps: seq<Piece>): seq<string>
    decreases |ps|
  {
    if |ps| == 0 then []
    else (if ps[0].Span? then [ps[0].tag] else []) + Tags(ps[1..])
  }

  lemma {:induction false} TagsAppend(a: seq<Piece>, b: seq<Piece>)
    ensures Tags(a + b) == Tags(a) + Tags(b)
    decreases |a|
  {
    if |a| == 0 {
      assert a + b == b;
    } else {
      assert (a + b)[1..] == a[1..] + b;
      TagsAppend(a[1..], b);
    }
  }
}
