/** The Unicode character database as the tokenizers consult it: Python's
    `str.isalnum` and `str.isspace` on one character and the regular
    expression classes `\w` and `\s`. The tables themselves are not modelled;
    only the facts the tokenizers depend on are stated, as predicates callers
    assume. */
module Unicode {

  /** `isAlnum` is `str.isalnum`, `isSpace` is `str.isspace` (and `\s`),
      `isWord` is `\w`. */
  datatype UnicodeDb = UnicodeDb(isAlnum: char -> bool, isSpace: char -> bool, isWord: char -> bool)

  /** What holds of every Unicode version: `\w` is the alphanumerics plus the
      underscore, so alphanumerics are word characters, and no word character
      is whitespace. */
  ghost predicate Valid(u: UnicodeDb) {
    && (forall c :: u.isAlnum(c) ==> u.isWord(c))
    && (forall c :: !(u.isWord(c) && u.isSpace(c)))
  }

  /** The classes of the ASCII characters the tag markup is made of. */
  ghost predicate MarkupChars(u: UnicodeDb) {
    && (forall c :: 'a' <= c <= 'z' ==> u.isWord(c))
    && !u.isWord('<') && !u.isSpace('<')
    && !u.isWord('>') && !u.isSpace('>')
    && !u.isWord('/') && !u.isSpace('/')
    && !u.isWord('?') && !u.isSpace('?')
    && u.isSpace(' ') && u.isSpace('\n')
  }

  /** The lower-case ASCII letters are alphanumeric. */
  ghost predicate LettersAlnum(u: UnicodeDb) {
    forall c :: 'a' <= c <= 'z' ==> u.isAlnum(c)
  }

  /** `s.isalnum()`: non-empty and every character alphanumeric. */
  predicate IsAlnumText(u: UnicodeDb, s: string) {
    |s| > 0 && forall i :: 0 <= i < |s| ==> u.isAlnum(s[i])
  }

  /** `s.isspace()`: non-empty and every character whitespace. */
  predicate IsSpaceText(u: UnicodeDb, s: string) {
    |s| > 0 && forall i :: 0 <= i < |s| ==> u.isSpace(s[i])
  }

  /** All characters of `s` are word characters (and there is one). */
  predicate IsWordText(u: UnicodeDb, s: string) {
    |s| > 0 && forall i :: 0 <= i < |s| ==> u.isWord(s[i])
  }

  /** `Tokenizer.is_punctuation`: neither alphanumeric nor whitespace. Applied
      to whole tokens as well as to single characters, with Python's meaning
      of `isalnum`/`isspace` on strings. */
  predicate IsPunctuation(u: UnicodeDb, s: string) {
    !IsAlnumText(u, s) && !IsSpaceText(u, s)
  }

  /** The tag names the emitter writes itself are words. */
  lemma LowercaseIsWord(u: UnicodeDb, s: string)
    requires MarkupChars(u)
    requires |s| > 0 && forall i :: 0 <= i < |s| ==> 'a' <= s[i] <= 'z'
    ensures IsWordText(u, s)
  {
  }

  /** On one character, punctuation means exactly: neither `isalnum` nor
      `isspace`. */
  lemma PunctuationChar(u: UnicodeDb, c: char)
    ensures IsPunctuation(u, [c]) <==> !u.isAlnum(c) && !u.isSpace(c)
  {
    assert [c][0] == c;
  }
}
