/** Python string primitives the tokenizers lean on: `''.join`, `' '.join`,
    `in`, `str.replace(p, '')` and `str.strip()`. */
module Base {

  datatype Option<+T> = None | Some(value: T)

  /** `''.join(parts)` */
  function Concat(parts: seq<string>): string
    decreases |parts|
  {
    if |parts| == 0 then "" else parts[0] + Concat(parts[1..])
  }

  lemma AppendAssoc<T>(a: seq<T>, b: seq<T>, c: seq<T>)
    ensures (a + b) + c == a + (b + c)
  {
  }

  /** `' '.join(words)` */
  function JoinSpaced(words: seq<string>): string
    decreases |words|
  {
    if |words| == 0 then ""
    else if |words| == 1 then words[0]
    else words[0] + " " + JoinSpaced(words[1..])
  }

  /** `p` occurs in `s` at offset `i`. */
  predicate StartsWithAt(s: string, i: nat, p: string) {
    i + |p| <= |s| && s[i..i + |p|] == p
  }

  /** Python's `p in s`. */
  predicate Contains(s: string, p: string) {
    exists i :: 0 <= i <= |s| && StartsWithAt(s, i, p)
  }

  /** `s.replace(p, '')`: one left-to-right pass deleting non-overlapping
      occurrences of `p`. */
  function RemoveAll(s: string, p: string): (r: string)
    requires |p| > 0
    ensures |r| <= |s|
    ensures (forall i :: 0 <= i <= |s| ==> !StartsWithAt(s, i, p)) ==> r == s
    decreases |s|
  {
    if |s| == 0 then ""
    else if StartsWithAt(s, 0, p) then RemoveAll(s[|p|..], p)
    else
      assert forall i :: 0 <= i <= |s[1..]| ==> StartsWithAt(s, i + 1, p) == StartsWithAt(s[1..], i, p);
      [s[0]] + RemoveAll(s[1..], p)
  }

  function StripLeading(isSpace: char -> bool, s: string): string
    decreases |s|
  {
    if |s| > 0 && isSpace(s[0]) then StripLeading(isSpace, s[1..]) else s
  }

  function StripTrailing(isSpace: char -> bool, s: string): string
    decreases |s|
  {
    if |s| > 0 && isSpace(s[|s| - 1]) then StripTrailing(isSpace, s[..|s| - 1]) else s
  }

  /** `s.strip()` with the whitespace test `isSpace`. */
  function Strip(isSpace: char -> bool, s: string): (r: string)
    ensures |r| > 0 ==> !isSpace(r[0]) && !isSpace(r[|r| - 1])
    ensures |s| > 0 && !isSpace(s[0]) && !isSpace(s[|s| - 1]) ==> r == s
  {
    StripTrailingKeepsHead(isSpace, StripLeading(isSpace, s));
    StripLeadingHead(isSpace, s);
    StripTrailing(isSpace, StripLeading(isSpace, s))
  }

  lemma {:induction false} StripLeadingHead(isSpace: char -> bool, s: string)
    ensures var r := StripLeading(isSpace, s);
      (|r| > 0 ==> !isSpace(r[0])) && (|r| > 0 ==> r[|r| - 1] == s[|s| - 1]) && |r| <= |s|
    decreases |s|
  {
    if |s| > 0 && isSpace(s[0]) {
      StripLeadingHead(isSpace, s[1..]);
    }
  }

  lemma {:induction false} StripTrailingKeepsHead(isSpace: char -> bool, s: string)
    ensures var r := StripTrailing(isSpace, s);
      (|r| > 0 ==> !isSpace(r[|r| - 1]) && r[0] == s[0]) && |r| <= |s|
    decreases |s|
  {
    if |s| > 0 && isSpace(s[|s| - 1]) {
      StripTrailingKeepsHead(isSpace, s[..|s| - 1]);
    }
  }

  /** `StripLeading` drops a whitespace prefix and nothing else. */
  lemma {:induction false} StripLeadingDrops(isSpace: char -> bool, s: string) returns (i: nat)
    ensures i <= |s| && StripLeading(isSpace, s) == s[i..]
    ensures forall k :: 0 <= k < i ==> isSpace(s[k])
    decreases |s|
  {
    if |s| > 0 && isSpace(s[0]) {
      var j := StripLeadingDrops(isSpace, s[1..]);
      i := j + 1;
      assert s[1..][j..] == s[i..];
      forall k | 0 <= k < i
        ensures isSpace(s[k])
      {
        if k > 0 {
          assert s[k] == s[1..][k - 1];
        }
      }
    } else {
      i := 0;
    }
  }

  /** `StripTrailing` drops a whitespace suffix and nothing else. */
  lemma {:induction false} StripTrailingDrops(isSpace: char -> bool, s: string) returns (j: nat)
    ensures j <= |s| && StripTrailing(isSpace, s) == s[..j]
    ensures forall k :: j <= k < |s| ==> isSpace(s[k])
    decreases |s|
  {
    if |s| > 0 && isSpace(s[|s| - 1]) {
      var t := s[..|s| - 1];
      j := StripTrailingDrops(isSpace, t);
      assert t[..j] == s[..j];
      forall k | j <= k < |s|
        ensures isSpace(s[k])
      {
        if k < |s| - 1 {
          assert s[k] == t[k];
        }
      }
    } else {
      j := |s|;
    }
  }

  /** Stripping keeps one window of `s` and drops only whitespace around it;
      with the edge facts `Strip` ensures, the window is the widest one. */
  lemma StripWindow(isSpace: char -> bool, s: string)
    ensures exists i, j :: 0 <= i <= j <= |s| && Strip(isSpace, s) == s[i..j] &&
                (forall k :: 0 <= k < i ==> isSpace(s[k])) && (forall k :: j <= k < |s| ==> isSpace(s[k]))
  {
    var i := StripLeadingDrops(isSpace, s);
    var t := s[i..];
    var m := StripTrailingDrops(isSpace, t);
    assert t[..m] == s[i..i + m];
    forall k | i + m <= k < |s|
      ensures isSpace(s[k])
    {
      assert s[k] == t[k - i];
    }
    assert Strip(isSpace, s) == s[i..i + m];
  }
}
