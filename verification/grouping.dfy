/** `Tokenizer._group_segments`: the markup is re-read with
    `re.findall(r'(<(\w+)>.*?</\2>|[^\w\s])', text)`, neighbouring matches
    with the same tag name are merged, bare symbols join the open group, and
    finally every `<punctuation>` and `</punctuation>` is deleted. */
module Grouping {
  import opened Base
  import opened Unicode
  import opened WordSplit
  import opened Markup

  /** One match of the pattern: a tag pair (group 2 holds its name), or a
      single character that is neither `\w` nor `\s` (group 2 is empty). */
  datatype Match = TagPair(name: string, inner: string) | Symbol(c: char)

  /** Group 1 of the match: the text it covers. */
  function MatchText(m: Match): (t: string)
    ensures |t| > 0
  {
    match m
    case TagPair(name, inner) => OpenTag(name) + inner + CloseTag(name)
    case Symbol(c) => [c]
  }

  /** The lazy `.*?` in front of `close`: the first offset from `p` on where
      `close` occurs, provided no newline comes before it (`.` does not match
      a newline). */
  function FindClose(s: string, p: nat, close: string): (r: Option<nat>)
    requires p <= |s|
    ensures r.Some? ==> p <= r.value && StartsWithAt(s, r.value, close)
    decreases |s| - p
  {
    if StartsWithAt(s, p, close) then Some(p)
    else if p == |s| || s[p] == '\n' then None
    else FindClose(s, p + 1, close)
  }

  /** The search is lazy: what it finds is the first occurrence of `close`,
      and no newline lies before it. It finds nothing only when a newline
      comes before every occurrence. */
  lemma {:induction false} FindCloseIsFirst(s: string, p: nat, close: string)
    requires p <= |s|
    ensures FindClose(s, p, close).Some? ==>
      forall i :: p <= i < FindClose(s, p, close).value ==> s[i] != '\n' && !StartsWithAt(s, i, close)
    ensures FindClose(s, p, close).None? ==>
      forall i :: p <= i <= |s| && StartsWithAt(s, i, close) ==> exists j :: p <= j < i && s[j] == '\n'
    decreases |s| - p
  {
    if !StartsWithAt(s, p, close) && p < |s| && s[p] != '\n' {
      FindCloseIsFirst(s, p + 1, close);
    }
  }

  /** The first alternative `<(\w+)>.*?</\2>` tried at the start of `s`.
      Since `>` is not a word character, the greedy `\w+` can only succeed
      with the whole word run after `<`. */
  function MatchPair(u: UnicodeDb, s: string): (r: Option<Match>)
    ensures r.Some? ==> r.value.TagPair? && IsWordText(u, r.value.name)
    ensures r.Some? ==> |MatchText(r.value)| <= |s| && s[..|MatchText(r.value)|] == MatchText(r.value)
  {
    if |s| == 0 || s[0] != '<' then None
    else
      var n := WordRunLen(u, s[1..]);
      if n == 0 || 1 + n >= |s| || s[1 + n] != '>' then None
      else
        var name := s[1..1 + n];
        assert forall i :: 0 <= i < n ==> name[i] == s[1..][i];
        match FindClose(s, 2 + n, CloseTag(name))
        case None => None
        case Some(q) =>
          PairText(s, name, q);
          Some(TagPair(name, s[2 + n..q]))
  }

  lemma PairText(s: string, name: string, q: nat)
    requires 1 + |name| < |s| && s[0] == '<' && s[1..1 + |name|] == name && s[1 + |name|] == '>'
    requires 2 + |name| <= q && StartsWithAt(s, q, CloseTag(name))
    ensures s[..q + |CloseTag(name)|] == OpenTag(name) + s[2 + |name|..q] + CloseTag(name)
  {
    var k := 2 + |name|;
    var e := q + |CloseTag(name)|;
    assert s[..k] == s[..1] + s[1..1 + |name|] + s[1 + |name|..k];
    assert s[..1] == "<";
    assert s[1 + |name|..k] == ">";
    assert s[..k] == OpenTag(name);
    assert s[q..e] == CloseTag(name);
    assert s[..e] == s[..k] + s[k..q] + s[q..e];
  }

  /** `re.findall` of the grouping pattern: at each position try the tag pair,
      then the symbol, and otherwise move on one character. Word characters
      and whitespace outside tag pairs are passed over. */
  function Scan(u: UnicodeDb, s: string): seq<Match>
    decreases |s|
  {
    if |s| == 0 then []
    else
      match MatchPair(u, s)
      case Some(m) => [m] + Scan(u, s[|MatchText(m)|..])
      case None =>
        if !u.isWord(s[0]) && !u.isSpace(s[0]) then [Symbol(s[0])] + Scan(u, s[1..])
        else Scan(u, s[1..])
  }

  /** `</\w+>` occurs at offset `p` of `t`. */
  predicate CloseLikeAt(u: UnicodeDb, t: string, p: nat) {
    && p + 2 <= |t| && t[p] == '<' && t[p + 1] == '/'
    && var n := WordRunLen(u, t[p + 2..]); n > 0 && p + 2 + n < |t| && t[p + 2 + n] == '>'
  }

  /** The first offset from `p` on where some closing tag starts, or the end. */
  function FirstCloseLike(u: UnicodeDb, t: string, p: nat): (q: nat)
    requires p <= |t|
    ensures p <= q <= |t|
    ensures forall i :: p <= i < q ==> !CloseLikeAt(u, t, i)
    ensures q < |t| ==> CloseLikeAt(u, t, q)
    decreases |t| - p
  {
    if p == |t| || CloseLikeAt(u, t, p) then p else FirstCloseLike(u, t, p + 1)
  }

  /** `re.search(r'<\w+>(.*?)</\w+>', segment).group(1)` on a matched pair:
      the inner text up to the first closing tag of any name, which need not
      be the pair's own closing tag. */
  function Content(u: UnicodeDb, m: Match): string
    requires m.TagPair?
  {
    var t := m.inner + CloseTag(m.name);
    t[..FirstCloseLike(u, t, 0)]
  }

  /** The open group closed as `<lang>content</lang>`. */
  function Close(pending: Option<Group>): seq<Piece> {
    if pending.Some? then [Span(pending.value.lang, pending.value.text)] else []
  }

  /** What a match contributes to the grouped text. */
  function Payload(u: UnicodeDb, m: Match): string {
    match m
    case TagPair(_, _) => Content(u, m)
    case Symbol(c) => [c]
  }

  function Payloads(u: UnicodeDb, ms: seq<Match>): string
    decreases |ms|
  {
    if |ms| == 0 then "" else Payload(u, ms[0]) + Payloads(u, ms[1..])
  }

  /** The visible text of pieces: span contents and bare texts. */
  function Visible(ps: seq<Piece>): string
    decreases |ps|
  {
    if |ps| == 0 then ""
    else (if ps[0].Span? then ps[0].content else ps[0].text) + Visible(ps[1..])
  }

  lemma {:induction false} VisibleAppend(a: seq<Piece>, b: seq<Piece>)
    ensures Visible(a + b) == Visible(a) + Visible(b)
    decreases |a|
  {
    if |a| == 0 {
      assert a + b == b;
    } else {
      assert (a + b)[1..] == a[1..] + b;
      VisibleAppend(a[1..], b);
    }
  }

  /** The grouping loop from the given open group on. Untagged symbols only
      ever come before the first span, no two neighbouring spans carry the
      same tag, and an open group is the first span of what follows. */
  function GroupFrom(u: UnicodeDb, pending: Option<Group>, ms: seq<Match>): (r: seq<Piece>)
    ensures pending.Some? ==> |r| > 0 && r[0].Span? && r[0].tag == pending.value.lang
    ensures forall i, j :: 0 <= i < j < |r| && r[i].Span? ==> r[j].Span?
    ensures forall i :: 0 <= i < |r| - 1 && r[i].Span? && r[i + 1].Span? ==> r[i].tag != r[i + 1].tag
    decreases |ms|
  {
    if |ms| == 0 then Close(pending)
    else
      match ms[0]
      case TagPair(name, inner) =>
        var content := Content(u, ms[0]);
        if pending.Some? && pending.value.lang == name then
          GroupFrom(u, Some(Group(name, pending.value.text + content)), ms[1..])
        else
          Close(pending) + GroupFrom(u, Some(Group(name, content)), ms[1..])
      case Symbol(c) =>
        if pending.Some? then
          GroupFrom(u, Some(Group(pending.value.lang, pending.value.text + [c])), ms[1..])
        else
          [Bare([c])] + GroupFrom(u, None, ms[1..])
  }

  /** Nothing is lost or reordered by the merge: the visible text of the
      grouped pieces is the open group's text followed by every match's
      contribution in order. */
  lemma {:induction false} GroupKeepsPayload(u: UnicodeDb, pending: Option<Group>, ms: seq<Match>)
    ensures Visible(GroupFrom(u, pending, ms)) ==
      (if pending.Some? then pending.value.text else "") + Payloads(u, ms)
    decreases |ms|
  {
    if |ms| > 0 {
      var rest := ms[1..];
      match ms[0]
      case TagPair(name, inner) =>
        var content := Content(u, ms[0]);
        if pending.Some? && pending.value.lang == name {
          GroupKeepsPayload(u, Some(Group(name, pending.value.text + content)), rest);
        } else {
          GroupKeepsPayload(u, Some(Group(name, content)), rest);
          VisibleAppend(Close(pending), GroupFrom(u, Some(Group(name, content)), rest));
        }
      case Symbol(c) =>
        if pending.Some? {
          GroupKeepsPayload(u, Some(Group(pending.value.lang, pending.value.text + [c])), rest);
        } else {
          GroupKeepsPayload(u, None, rest);
          VisibleAppend([Bare([c])], GroupFrom(u, None, rest));
        }
    }
  }

  /** The tag names of the pair matches, in order. */
  function Names(ms: seq<Match>): seq<string>
    decreases |ms|
  {
    if |ms| == 0 then []
    else (if ms[0].TagPair? then [ms[0].name] else []) + Names(ms[1..])
  }

  /** `s` with every run of equal neighbours reduced to one element. */
  function Collapse(s: seq<string>): seq<string>
    decreases |s|
  {
    if |s| <= 1 then s
    else if s[0] == s[1] then Collapse(s[1..])
    else [s[0]] + Collapse(s[1..])
  }

  /** The span tags of the result are the match names with runs of equal
      neighbours collapsed, starting from the open group's language. */
  lemma {:induction false} GroupTags(u: UnicodeDb, pending: Option<Group>, ms: seq<Match>)
    ensures Tags(GroupFrom(u, pending, ms)) ==
      Collapse((if pending.Some? then [pending.value.lang] else []) + Names(ms))
    decreases |ms|
  {
    var pre: seq<string> := if pending.Some? then [pending.value.lang] else [];
    if |ms| == 0 {
      assert pre + Names(ms) == pre;
    } else {
      var rest := ms[1..];
      match ms[0]
      case TagPair(name, inner) =>
        var content := Content(u, ms[0]);
        assert Names(ms) == [name] + Names(rest);
        if pending.Some? && pending.value.lang == name {
          GroupTags(u, Some(Group(name, pending.value.text + content)), rest);
          assert (pre + Names(ms))[1..] == [name] + Names(rest);
        } else {
          GroupTags(u, Some(Group(name, content)), rest);
          TagsAppend(Close(pending), GroupFrom(u, Some(Group(name, content)), rest));
          if pending.Some? {
            assert (pre + Names(ms))[1..] == [name] + Names(rest);
          } else {
            assert pre + Names(ms) == [name] + Names(rest);
          }
        }
      case Symbol(c) =>
        assert Names(ms) == Names(rest);
        if pending.Some? {
          GroupTags(u, Some(Group(pending.value.lang, pending.value.text + [c])), rest);
        } else {
          GroupTags(u, None, rest);
          TagsAppend([Bare([c])], GroupFrom(u, None, rest));
        }
    }
  }

  /** The closing `.replace("<punctuation>", "").replace("</punctuation>", "")`. */
  function UnwrapPunctuation(s: string): string {
    RemoveAll(RemoveAll(s, "<punctuation>"), "</punctuation>")
  }

  /** `Tokenizer._group_segments`. */
  function GroupSegments(u: UnicodeDb, text: string): string {
    UnwrapPunctuation(RenderAll(GroupFrom(u, None, Scan(u, text))))
  }

  // ---------------------------------------------------------------------
  // Markup the scanner reads back as it was written

  /** Span content that the pattern reads back unchanged: no newline, and no
      `<` except possibly as the last character. */
  predicate SafeContent(c: string) {
    && (forall i :: 0 <= i < |c| ==> c[i] != '\n')
    && (forall i :: 0 <= i < |c| - 1 ==> c[i] != '<')
  }

  /** A span whose tag name is a word and whose content is safe. */
  predicate WellFormedSpan(u: UnicodeDb, p: Piece) {
    p.Span? && IsWordText(u, p.tag) && SafeContent(p.content)
  }

  /** The matches a list of spans should produce. */
  function Pairs(ps: seq<Piece>): seq<Match>
    decreases |ps|
  {
    if |ps| == 0 then []
    else (if ps[0].Span? then [TagPair(ps[0].tag, ps[0].content)] else []) + Pairs(ps[1..])
  }

  /** Reference merge: neighbouring spans with the same tag become one span
      holding both contents. */
  function MergeAdjacent(ps: seq<Piece>): seq<Piece>
    decreases |ps|
  {
    if |ps| <= 1 then ps
    else if ps[0].Span? && ps[1].Span? && ps[0].tag == ps[1].tag then
      MergeAdjacent([Span(ps[0].tag, ps[0].content + ps[1].content)] + ps[2..])
    else [ps[0]] + MergeAdjacent(ps[1..])
  }

  lemma {:induction false} FindCloseAt(s: string, p: nat, q: nat, close: string)
    requires p <= q && StartsWithAt(s, q, close)
    requires forall i :: p <= i < q ==> s[i] != '\n' && !StartsWithAt(s, i, close)
    ensures FindClose(s, p, close) == Some(q)
    decreases q - p
  {
    if p < q {
      FindCloseAt(s, p + 1, q, close);
    }
  }

  lemma WordRunOfName(u: UnicodeDb, name: string, rest: string)
    requires MarkupChars(u) && IsWordText(u, name)
    ensures WordRunLen(u, name + ">" + rest) == |name|
  {
    var t := name + ">" + rest;
    assert t[|name|] == '>';
    assert forall i :: 0 <= i < |name| ==> t[i] == name[i];
  }

  /** A well-formed span at the front is matched as a tag pair holding
      exactly its content. */
  lemma MatchPairOfSpan(u: UnicodeDb, p: Piece, rest: string)
    requires MarkupChars(u) && WellFormedSpan(u, p)
    ensures MatchPair(u, Render(p) + rest) == Some(TagPair(p.tag, p.content))
  {
    SpanLayout(p, rest);
    MatchPairOfSafeSpan(u, Render(p) + rest, p.tag, p.content, rest);
  }

  lemma MatchPairOfSafeSpan(u: UnicodeDb, s: string, name: string, c: string, rest: string)
    requires MarkupChars(u) && IsWordText(u, name) && SafeContent(c)
    requires |s| > 2 + |name| && s[0] == '<'
    requires s[1..] == name + (">" + (c + (CloseTag(name) + rest)))
    requires s[2 + |name|..] == c + (CloseTag(name) + rest)
    requires CloseTag(name)[0] == '<' && CloseTag(name)[1] == '/'
    ensures MatchPair(u, s) == Some(TagPair(name, c))
  {
    var k := 2 + |name|;
    SafeContentReachesClose(s, k, c, CloseTag(name), rest);
    MatchPairOfOpenTag(u, s, name, c + (CloseTag(name) + rest), k + |c|);
  }

  /** Where the parts of a rendered span lie. */
  lemma SpanLayout(p: Piece, rest: string)
    requires p.Span?
    ensures var s := Render(p) + rest;
      var body := p.content + (CloseTag(p.tag) + rest);
      && |s| > 2 + |p.tag|
      && s[0] == '<'
      && s[1..] == p.tag + (">" + body)
      && s[2 + |p.tag|..] == body
      && CloseTag(p.tag)[0] == '<' && CloseTag(p.tag)[1] == '/'
  {
    var tag, c, close := p.tag, p.content, CloseTag(p.tag);
    var open := OpenTag(tag);
    var body := c + (close + rest);
    var s := Render(p) + rest;
    AppendAssoc(open + c, close, rest);
    AppendAssoc(open, c, close + rest);
    assert s == open + body;
    AppendAssoc("<" + tag, ">", body);
    AppendAssoc("<", tag, ">" + body);
    assert s == "<" + (tag + (">" + body));
  }

  /** Behind a well-formed opening tag the pattern takes the text up to the
      closing tag the lazy search finds. */
  lemma MatchPairOfOpenTag(u: UnicodeDb, s: string, name: string, body: string, q: nat)
    requires MarkupChars(u) && IsWordText(u, name)
    requires |s| > 0 && s[0] == '<' && s[1..] == name + (">" + body)
    requires FindClose(s, 2 + |name|, CloseTag(name)) == Some(q)
    ensures MatchPair(u, s) == Some(TagPair(name, s[2 + |name|..q]))
  {
    AppendAssoc(name, ">", body);
    WordRunOfName(u, name, body);
    assert s[1..1 + |name|] == name;
    assert s[1 + |name|] == '>';
  }

  /** From offset `k` on, a safe content followed by a closing tag: the lazy
      search stops at that closing tag. */
  lemma SafeContentReachesClose(s: string, k: nat, c: string, close: string, rest: string)
    requires k <= |s| && s[k..] == c + (close + rest)
    requires SafeContent(c)
    requires |close| >= 2 && close[0] == '<' && close[1] == '/'
    ensures FindClose(s, k, close) == Some(k + |c|)
    ensures s[k..k + |c|] == c
  {
    var q := k + |c|;
    assert s[q..q + |close|] == close;
    forall i | k <= i < q
      ensures s[i] != '\n' && !StartsWithAt(s, i, close)
    {
      assert s[i] == c[i - k];
      if i == q - 1 {
        assert s[i + 1] == '<';
      }
    }
    FindCloseAt(s, k, q, close);
  }

  /** The content search gives back a safe content unchanged. */
  lemma ContentOfSafe(u: UnicodeDb, name: string, c: string)
    requires MarkupChars(u) && IsWordText(u, name) && SafeContent(c)
    ensures Content(u, TagPair(name, c)) == c
  {
    var t := c + CloseTag(name);
    assert t[|c| + 2..] == name + ">";
    WordRunOfName(u, name, "");
    assert name + ">" + "" == name + ">";
    assert CloseLikeAt(u, t, |c|);
    forall i | 0 <= i < |c|
      ensures !CloseLikeAt(u, t, i)
    {
      assert t[i] == c[i];
      if i == |c| - 1 {
        assert t[i + 1] == '<';
      }
    }
    assert t[..|c|] == c;
  }

  /** Rendered well-formed spans are scanned back into their own tag pairs. */
  lemma {:induction false} ScanOfSpans(u: UnicodeDb, ps: seq<Piece>)
    requires MarkupChars(u)
    requires forall i :: 0 <= i < |ps| ==> WellFormedSpan(u, ps[i])
    ensures Scan(u, RenderAll(ps)) == Pairs(ps)
    decreases |ps|
  {
    if |ps| > 0 {
      var s := RenderAll(ps);
      MatchPairOfSpan(u, ps[0], RenderAll(ps[1..]));
      assert MatchText(TagPair(ps[0].tag, ps[0].content)) == Render(ps[0]);
      assert s[|Render(ps[0])|..] == RenderAll(ps[1..]);
      ScanOfSpans(u, ps[1..]);
    }
  }

  /** On the pairs of well-formed spans the loop with an open group is the
      reference merge. */
  lemma {:induction false} GroupOfSpans(u: UnicodeDb, lang: string, text: string, ps: seq<Piece>)
    requires MarkupChars(u)
    requires forall i :: 0 <= i < |ps| ==> WellFormedSpan(u, ps[i])
    ensures GroupFrom(u, Some(Group(lang, text)), Pairs(ps)) == MergeAdjacent([Span(lang, text)] + ps)
    decreases |ps|
  {
    if |ps| > 0 {
      var name := ps[0].tag;
      var c := ps[0].content;
      var all := [Span(lang, text)] + ps;
      ContentOfSafe(u, name, c);
      assert Pairs(ps)[0] == TagPair(name, c);
      assert Pairs(ps)[1..] == Pairs(ps[1..]);
      if name == lang {
        assert all[2..] == ps[1..];
        GroupOfSpans(u, lang, text + c, ps[1..]);
      } else {
        assert all[1..] == ps;
        assert ps == [Span(name, c)] + ps[1..];
        GroupOfSpans(u, name, c, ps[1..]);
      }
    }
  }

  /** With no open group, the loop over well-formed spans is the reference
      merge. */
  lemma GroupOfSpansFromNone(u: UnicodeDb, ps: seq<Piece>)
    requires MarkupChars(u)
    requires forall i :: 0 <= i < |ps| ==> WellFormedSpan(u, ps[i])
    ensures GroupFrom(u, None, Pairs(ps)) == MergeAdjacent(ps)
  {
    if |ps| > 0 {
      var name := ps[0].tag;
      var c := ps[0].content;
      ContentOfSafe(u, name, c);
      assert Pairs(ps)[0] == TagPair(name, c);
      assert Pairs(ps)[1..] == Pairs(ps[1..]);
      assert ps == [Span(name, c)] + ps[1..];
      GroupOfSpans(u, name, c, ps[1..]);
    }
  }

  /** Grouping well-formed markup merges neighbouring spans of one tag and
      then applies the two `replace` calls; `Unwrap.GroupOfSortedMarkup`
      says what they leave. */
  lemma GroupOfWellFormedMarkup(u: UnicodeDb, ps: seq<Piece>)
    requires MarkupChars(u)
    requires forall i :: 0 <= i < |ps| ==> WellFormedSpan(u, ps[i])
    ensures GroupSegments(u, RenderAll(ps)) == UnwrapPunctuation(RenderAll(MergeAdjacent(ps)))
  {
    ScanOfSpans(u, ps);
    GroupOfSpansFromNone(u, ps);
  }

  /** Pieces with no two neighbouring spans of one tag are left as they
      are by the merge. */
  lemma {:induction false} MergeOfDistinct(ps: seq<Piece>)
    requires forall i :: 0 <= i < |ps| - 1 && ps[i].Span? && ps[i + 1].Span? ==> ps[i].tag != ps[i + 1].tag
    ensures MergeAdjacent(ps) == ps
    decreases |ps|
  {
    if |ps| > 1 {
      assert forall i :: 0 <= i < |ps[1..]| ==> ps[1..][i] == ps[i + 1];
      MergeOfDistinct(ps[1..]);
      assert ps == [ps[0]] + ps[1..];
    }
  }

  /** A `<punctuation>` span between two spans of one language is a tag
      pair of its own, so it keeps them apart: grouping leaves all three
      spans as they are. */
  lemma PunctuationSpanSeparatesGroups(u: UnicodeDb, lang: string, a: string, p: string, b: string)
    requires MarkupChars(u) && IsWordText(u, lang) && lang != "punctuation"
    requires SafeContent(a) && SafeContent(p) && SafeContent(b)
    ensures var ps := [Span(lang, a), Span("punctuation", p), Span(lang, b)];
      GroupFrom(u, None, Scan(u, RenderAll(ps))) == ps
  {
    var punct := "punctuation";
    var ps := [Span(lang, a), Span(punct, p), Span(lang, b)];
    LowercaseIsWord(u, punct);
    assert forall i :: 0 <= i < |ps| ==> WellFormedSpan(u, ps[i]);
    ScanOfSpans(u, ps);
    GroupOfSpansFromNone(u, ps);
    MergeOfDistinct(ps);
  }

  // ---------------------------------------------------------------------
  // Consequences of the pattern the source lives with

  /** A character that is neither a word character nor whitespace, and does
      not open a tag, is a symbol match by itself. */
  lemma ScanSymbolStep(u: UnicodeDb, s: string)
    requires |s| > 0 && !u.isWord(s[0]) && !u.isSpace(s[0])
    requires s[0] != '<' || (|s| > 1 && !u.isWord(s[1]))
    ensures Scan(u, s) == [Symbol(s[0])] + Scan(u, s[1..])
  {
    if s[0] == '<' {
      assert s[1..][0] == s[1];
      assert WordRunLen(u, s[1..]) == 0;
    }
    assert MatchPair(u, s).None?;
  }

  /** `?` is not a word character, so `<??>` is no tag: it is read as four
      symbols. */
  lemma UnknownTagIsNotATag(u: UnicodeDb, s: string)
    requires MarkupChars(u)
    requires |s| >= 4 && s[0] == '<' && s[1] == '?' && s[2] == '?' && s[3] == '>'
    ensures Scan(u, s) == [Symbol('<'), Symbol('?'), Symbol('?'), Symbol('>')] + Scan(u, s[4..])
  {
    var s1 := s[1..];
    var s2 := s1[1..];
    var s3 := s2[1..];
    var t := Scan(u, s[4..]);
    var a, b, d := Symbol('<'), Symbol('?'), Symbol('>');
    assert s3[1..] == s[4..];
    ScanSymbolStep(u, s3);
    ScanSymbolStep(u, s2);
    ScanSymbolStep(u, s1);
    ScanSymbolStep(u, s);
    assert Scan(u, s) == [a] + ([b] + ([b] + ([d] + t)));
    assert [a, b, b, d] == [a] + ([b] + ([b] + [d]));
    AppendAssoc([b], [d], t);
    AppendAssoc([b], [b] + [d], t);
    AppendAssoc([a], [b] + ([b] + [d]), t);
  }

  /** Word characters and whitespace outside a tag pair are dropped. */
  lemma {:induction false} ScanSkipsWordsAndSpaces(u: UnicodeDb, w: string, s: string)
    requires MarkupChars(u)
    requires forall i :: 0 <= i < |w| ==> u.isWord(w[i]) || u.isSpace(w[i])
    ensures Scan(u, w + s) == Scan(u, s)
    decreases |w|
  {
    if |w| > 0 {
      assert (w + s)[0] == w[0];
      assert (w + s)[1..] == w[1..] + s;
      ScanSkipsWordsAndSpaces(u, w[1..], s);
    } else {
      assert w + s == s;
    }
  }

  /** `.` does not match a newline: a span whose content starts with one is
      not recognised as a tag pair. */
  lemma NewlineBreaksPair(u: UnicodeDb, name: string, rest: string)
    requires MarkupChars(u) && IsWordText(u, name)
    ensures MatchPair(u, OpenTag(name) + "\n" + rest).None?
  {
    var s := OpenTag(name) + "\n" + rest;
    assert s[1..] == name + ">" + ("\n" + rest);
    WordRunOfName(u, name, "\n" + rest);
    assert s[1..1 + |name|] == name;
    assert s[2 + |name|] == '\n';
    assert !StartsWithAt(s, 2 + |name|, CloseTag(name));
  }

  /** The content search stops at the first closing tag of any name, so an
      inner closing tag cuts the span's content short. */
  lemma ContentStopsAtForeignClose(u: UnicodeDb, name: string, x: string, other: string, y: string)
    requires MarkupChars(u) && IsWordText(u, other)
    requires forall i :: 0 <= i < |x| ==> x[i] != '<'
    ensures Content(u, TagPair(name, x + CloseTag(other) + y)) == x
  {
    var t := x + CloseTag(other) + y + CloseTag(name);
    assert t[|x| + 2..] == other + ">" + (y + CloseTag(name));
    WordRunOfName(u, other, y + CloseTag(name));
    assert CloseLikeAt(u, t, |x|);
    assert forall i :: 0 <= i < |x| ==> t[i] == x[i];
    assert t[..|x|] == x;
  }

  /** An untagged word on its own groups to the empty text; between spans,
      `ScanSkipsWordsAndSpaces` says it produces no match. */
  lemma BareWordVanishes(u: UnicodeDb, w: string)
    requires MarkupChars(u) && IsWordText(u, w)
    ensures GroupSegments(u, w) == ""
  {
    ScanSkipsWordsAndSpaces(u, w, "");
    assert w + "" == w;
  }

  /** The characters of a list of symbol matches. */
  function SymbolChars(ms: seq<Match>): string
    decreases |ms|
  {
    if |ms| == 0 then "" else (if ms[0].Symbol? then [ms[0].c] else "") + SymbolChars(ms[1..])
  }

  /** Symbols with no open group are copied through untagged. */
  lemma {:induction false} GroupOfSymbols(u: UnicodeDb, ms: seq<Match>)
    requires forall i :: 0 <= i < |ms| ==> ms[i].Symbol?
    ensures RenderAll(GroupFrom(u, None, ms)) == SymbolChars(ms)
    decreases |ms|
  {
    if |ms| > 0 {
      GroupOfSymbols(u, ms[1..]);
      RenderAllAppend([Bare([ms[0].c])], GroupFrom(u, None, ms[1..]));
    }
  }

  /** `</??>` is read as five symbols. */
  lemma ScanOfUnknownClose(u: UnicodeDb)
    requires MarkupChars(u)
    ensures Scan(u, "</??>") == CloseSymbols()
  {
    var t: string := "</??>";
    var t1 := t[1..];
    var t2 := t1[1..];
    var t3 := t2[1..];
    var t4 := t3[1..];
    assert t4[1..] == [];
    ScanSymbolStep(u, t4);
    ScanSymbolStep(u, t3);
    ScanSymbolStep(u, t2);
    ScanSymbolStep(u, t1);
    ScanSymbolStep(u, t);
  }

  /** The matches of an unknown span around a word. */
  lemma ScanOfUnknownSpan(u: UnicodeDb, w: string)
    requires MarkupChars(u) && IsWordText(u, w)
    ensures Scan(u, "<??>" + w + "</??>") == UnknownSymbols()
  {
    ScanOfUnknownOpen(u, w, "</??>");
    ScanOfUnknownClose(u);
  }

  /** `<??>` and the word after it: four symbols, the word dropped. */
  lemma ScanOfUnknownOpen(u: UnicodeDb, w: string, t: string)
    requires MarkupChars(u) && IsWordText(u, w)
    ensures Scan(u, "<??>" + w + t) == OpenSymbols() + Scan(u, t)
  {
    var s := "<??>" + (w + t);
    assert "<??>" + w + t == s;
    assert s[0] == '<' && s[1] == '?' && s[2] == '?' && s[3] == '>';
    UnknownTagIsNotATag(u, s);
    assert s[4..] == w + t;
    ScanSkipsWordsAndSpaces(u, w, t);
  }

  /** The matches of `<??>`. */
  function OpenSymbols(): seq<Match> {
    [Symbol('<'), Symbol('?'), Symbol('?'), Symbol('>')]
  }

  /** The matches of `</??>`. */
  function CloseSymbols(): seq<Match> {
    [Symbol('<'), Symbol('/'), Symbol('?'), Symbol('?'), Symbol('>')]
  }

  function UnknownSymbols(): seq<Match> {
    OpenSymbols() + CloseSymbols()
  }

  lemma UnknownSymbolChars()
    ensures SymbolChars(UnknownSymbols()) == "<??></??>"
  {
    var ms := UnknownSymbols();
    assert SymbolChars(ms[8..]) == ">";
    assert SymbolChars(ms[6..]) == "??>";
    assert SymbolChars(ms[4..]) == "</??>";
    assert SymbolChars(ms[2..]) == "?>" + "</??>";
  }

  lemma UnwrapWithoutPunctuation(r: string)
    requires |r| < 13
    ensures UnwrapPunctuation(r) == r
  {
    assert !Contains(r, "<punctuation>");
    assert !Contains(r, "</punctuation>");
  }

  /** A span the identifier could not tag loses its words in grouping: only
      the characters of its two tags survive. */
  lemma UnknownSpanLosesWords(u: UnicodeDb, w: string)
    requires MarkupChars(u) && IsWordText(u, w)
    ensures GroupSegments(u, "<??>" + w + "</??>") == "<??></??>"
  {
    ScanOfUnknownSpan(u, w);
    GroupOfUnknownSymbols(u, "<??>" + w + "</??>");
  }

  lemma GroupOfUnknownSymbols(u: UnicodeDb, text: string)
    requires Scan(u, text) == UnknownSymbols()
    ensures GroupSegments(u, text) == "<??></??>"
  {
    var ms := UnknownSymbols();
    UnknownSymbolsAreSymbols();
    GroupOfSymbols(u, ms);
    UnknownSymbolChars();
    UnwrapWithoutPunctuation(SymbolChars(ms));
  }

  lemma UnknownSymbolsAreSymbols()
    ensures forall i :: 0 <= i < |UnknownSymbols()| ==> UnknownSymbols()[i].Symbol?
  {
  }
}
