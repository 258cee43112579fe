/** `Tokenizer.split_non_cjk_in_segment`: `re.findall(r'\w+|[^\w\s]', text)`,
    as a scanner that tries the greedy word alternative first, then a single
    symbol, and otherwise skips one (whitespace) character. */
module WordSplit {
  import opened Base
  import opened Unicode

  /** How far the greedy `\w+` reaches from the start of `s`. */
  function WordRunLen(u: UnicodeDb, s: string): (n: nat)
    ensures n <= |s|
    ensures forall i :: 0 <= i < n ==> u.isWord(s[i])
    ensures n < |s| ==> !u.isWord(s[n])
    decreases |s|
  {
    if |s| == 0 || !u.isWord(s[0]) then 0
    else
      var n := WordRunLen(u, s[1..]);
      assert forall i :: 1 <= i < n + 1 ==> s[i] == s[1..][i - 1];
      1 + n
  }

  /** A token `findall` can return: a run of word characters, or one
      character that is neither a word character nor whitespace. */
  predicate IsToken(u: UnicodeDb, t: string) {
    IsWordText(u, t) || (|t| == 1 && !u.isWord(t[0]) && !u.isSpace(t[0]))
  }

  /** The matches of `\w+|[^\w\s]` in `text`, left to right. */
  function Words(u: UnicodeDb, text: string): seq<string>
    decreases |text|
  {
    if |text| == 0 then []
    else if u.isWord(text[0]) then
      var n := WordRunLen(u, text);
      [text[..n]] + Words(u, text[n..])
    else if u.isSpace(text[0]) then Words(u, text[1..])
    else [text[..1]] + Words(u, text[1..])
  }

  /** Every match is a maximal word run or a single symbol. */
  lemma {:induction false} WordsAreTokens(u: UnicodeDb, text: string)
    ensures forall i :: 0 <= i < |Words(u, text)| ==> IsToken(u, Words(u, text)[i])
    decreases |text|
  {
    if |text| > 0 {
      var n := if u.isWord(text[0]) then WordRunLen(u, text) else 1;
      WordsAreTokens(u, text[n..]);
      if u.isWord(text[0]) {
        assert forall i :: 0 <= i < n ==> text[..n][i] == text[i];
      } else if u.isSpace(text[0]) {
        WordsAreTokens(u, text[1..]);
      } else {
        assert text[..1][0] == text[0];
      }
    }
  }

  /** `text` with its whitespace characters deleted. */
  function RemoveSpaces(u: UnicodeDb, text: string): string
    decreases |text|
  {
    if |text| == 0 then ""
    else if u.isSpace(text[0]) then RemoveSpaces(u, text[1..])
    else [text[0]] + RemoveSpaces(u, text[1..])
  }

  lemma {:induction false} RemoveSpacesAppend(u: UnicodeDb, a: string, b: string)
    ensures RemoveSpaces(u, a + b) == RemoveSpaces(u, a) + RemoveSpaces(u, b)
    decreases |a|
  {
    if |a| == 0 {
      assert a + b == b;
    } else {
      assert (a + b)[1..] == a[1..] + b;
      RemoveSpacesAppend(u, a[1..], b);
    }
  }

  lemma {:induction false} RemoveSpacesOfNonSpace(u: UnicodeDb, s: string)
    requires forall i :: 0 <= i < |s| ==> !u.isSpace(s[i])
    ensures RemoveSpaces(u, s) == s
    decreases |s|
  {
    if |s| > 0 {
      RemoveSpacesOfNonSpace(u, s[1..]);
    }
  }

  /** Nothing but whitespace is lost: the tokens, joined without separator,
      give back the input minus its whitespace, in order. */
  lemma {:induction false} WordsLoseOnlySpace(u: UnicodeDb, text: string)
    requires Valid(u)
    ensures Concat(Words(u, text)) == RemoveSpaces(u, text)
    decreases |text|
  {
    if |text| == 0 {
    } else if u.isWord(text[0]) {
      var n := WordRunLen(u, text);
      assert text == text[..n] + text[n..];
      RemoveSpacesAppend(u, text[..n], text[n..]);
      RemoveSpacesOfNonSpace(u, text[..n]);
      WordsLoseOnlySpace(u, text[n..]);
    } else if u.isSpace(text[0]) {
      WordsLoseOnlySpace(u, text[1..]);
    } else {
      assert text == text[..1] + text[1..];
      RemoveSpacesAppend(u, text[..1], text[1..]);
      RemoveSpacesOfNonSpace(u, text[..1]);
      WordsLoseOnlySpace(u, text[1..]);
    }
  }

  /** A run of word characters is one token: `\w+` is greedy. */
  lemma WordsOfWord(u: UnicodeDb, w: string)
    requires IsWordText(u, w)
    ensures Words(u, w) == [w]
  {
    assert w[..|w|] == w;
  }

  /** A single whitespace character yields nothing; any other non-word
      character is a token by itself. */
  lemma WordsOfChar(u: UnicodeDb, c: char)
    requires !u.isWord(c)
    ensures Words(u, [c]) == if u.isSpace(c) then [] else [[c]]
  {
    assert [c][0] == c;
    assert [c][1..] == [];
    assert [c][..1] == [c];
  }

  /** Cutting the input where no word run is split cuts the token list the
      same way. With the two lemmas above this determines `Words`. */
  lemma {:induction false} WordsAppend(u: UnicodeDb, a: string, b: string)
    requires |a| == 0 || |b| == 0 || !u.isWord(a[|a| - 1]) || !u.isWord(b[0])
    ensures Words(u, a + b) == Words(u, a) + Words(u, b)
    decreases |a|
  {
    if |a| == 0 {
      assert a + b == b;
    } else {
      var h, n := WordsFront(u, a, b);
      var a' := a[n..];
      WordsAppend(u, a', b);
      var p, q := Words(u, a'), Words(u, b);
      assert Words(u, a + b) == h + (p + q);
      assert h + (p + q) == (h + p) + q;
    }
  }

  /** `Words` takes the same first tokens `h` from `a + b` as from `a`, and
      continues on the rest of `a`. */
  lemma WordsFront(u: UnicodeDb, a: string, b: string) returns (h: seq<string>, n: nat)
    requires |a| > 0
    requires |b| == 0 || !u.isWord(a[|a| - 1]) || !u.isWord(b[0])
    ensures 0 < n <= |a|
    ensures Words(u, a + b) == h + Words(u, a[n..] + b)
    ensures Words(u, a) == h + Words(u, a[n..])
    ensures |a[n..]| == 0 || |b| == 0 || !u.isWord(a[n..][|a[n..]| - 1]) || !u.isWord(b[0])
  {
    var s := a + b;
    assert s[0] == a[0];
    n := if u.isWord(a[0]) then WordRunLen(u, a) else 1;
    h := if u.isSpace(a[0]) && !u.isWord(a[0]) then [] else [a[..n]];
    if u.isWord(a[0]) {
      WordRunOfAppend(u, a, b);
    }
    assert s[..n] == a[..n];
    assert s[n..] == a[n..] + b;
    if n < |a| {
      assert a[n..][|a[n..]| - 1] == a[|a| - 1];
    }
  }

  /** The word run at the front of `a` is not extended by `b` when the cut
      does not fall inside a word run. */
  lemma WordRunOfAppend(u: UnicodeDb, a: string, b: string)
    requires |a| > 0
    requires |b| == 0 || !u.isWord(a[|a| - 1]) || !u.isWord(b[0])
    ensures WordRunLen(u, a + b) == WordRunLen(u, a)
  {
    var s := a + b;
    var n := WordRunLen(u, a);
    assert forall i :: 0 <= i < n ==> s[i] == a[i];
    if n < |a| {
      assert s[n] == a[n];
    } else if |b| > 0 {
      assert s[n] == b[0];
    }
  }

  /** Text made only of alphanumerics and whitespace splits into alphanumeric
      tokens, none of which `is_punctuation` accepts. */
  lemma {:induction false} AlnumTextWords(u: UnicodeDb, text: string)
    requires Valid(u)
    requires forall i :: 0 <= i < |text| ==> u.isAlnum(text[i]) || u.isSpace(text[i])
    ensures forall i :: 0 <= i < |Words(u, text)| ==>
      IsAlnumText(u, Words(u, text)[i]) && !IsPunctuation(u, Words(u, text)[i])
    decreases |text|
  {
    if |text| == 0 {
    } else if u.isWord(text[0]) {
      var n := WordRunLen(u, text);
      assert forall i :: 0 <= i < n ==> u.isAlnum(text[..n][i]);
      AlnumTextWords(u, text[n..]);
    } else if u.isSpace(text[0]) {
      AlnumTextWords(u, text[1..]);
    } else {
      assert false;
    }
  }
}
