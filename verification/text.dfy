/** Character classes of the ECMAScript regular expressions the services use,
    JavaScript's `toLowerCase`, the `_` wildcard of SQL `LIKE`, and the
    code-point order used to sort names. Letters and case mapping are those of
    Latin-1 (U+0000 to U+00FF); the rest of Unicode is outside the model. */
module Text {

  predicate IsAsciiLetter(c: char) {
    ('a' <= c <= 'z') || ('A' <= c <= 'Z')
  }

  predicate IsDigit(c: char) {
    '0' <= c <= '9'
  }

  /** The `\p{L}` class (Unicode letters), restricted to Latin-1. */
  predicate IsLetter(c: char) {
    || IsAsciiLetter(c)
    || c == '\U{00AA}' || c == '\U{00B5}' || c == '\U{00BA}'
    || ('\U{00C0}' <= c <= '\U{00FF}' && c != '\U{00D7}' && c != '\U{00F7}')
  }

  /** The `\s` class of ECMAScript: white space and line terminators. */
  predicate IsSpace(c: char) {
    || c == '\t' || c == '\n' || c == '\U{000B}' || c == '\U{000C}' || c == '\r'
    || c == ' ' || c == '\U{00A0}' || c == '\U{1680}'
    || ('\U{2000}' <= c <= '\U{200A}')
    || c == '\U{2028}' || c == '\U{2029}' || c == '\U{202F}' || c == '\U{205F}'
    || c == '\U{3000}' || c == '\U{FEFF}'
  }

  /** Every character of `s` is in the class `p` (a regex `^[...]*$`). */
  predicate AllIn(s: string, p: char -> bool) {
    forall i :: 0 <= i < |s| ==> p(s[i])
  }

  predicate IsUpper(c: char) {
    ('A' <= c <= 'Z') || ('\U{00C0}' <= c <= '\U{00DE}' && c != '\U{00D7}')
  }

  /** `toLowerCase` of one character: upper-case letters move 0x20 code points up. */
  function LowerChar(c: char): (r: char)
    ensures IsUpper(c) ==> r as int == c as int + 0x20
    ensures !IsUpper(c) ==> r == c
    ensures !IsUpper(r)
  {
    if IsUpper(c) then (c as int + 0x20) as char else c
  }

  /** `toLowerCase` of a string: same length, character by character. */
  function Lower(s: string): (r: string)
    ensures |r| == |s|
    ensures forall i :: 0 <= i < |s| ==> r[i] == LowerChar(s[i])
  {
    seq(|s|, i requires 0 <= i < |s| => LowerChar(s[i]))
  }

  /** Lower-casing changes nothing in a string that is already lower case,
      in particular in one that was lower-cased before. */
  lemma LowerIdempotent(s: string)
    ensures Lower(Lower(s)) == Lower(s)
  {
    assert forall i :: 0 <= i < |s| ==> LowerChar(LowerChar(s[i])) == LowerChar(s[i]);
  }

  /** Lower-casing keeps letters letters and every other class of the
      validation regexes as it is. */
  lemma LowerKeepsClasses(c: char)
    ensures IsLetter(LowerChar(c)) == IsLetter(c)
    ensures IsDigit(LowerChar(c)) == IsDigit(c)
    ensures IsSpace(LowerChar(c)) == IsSpace(c)
    ensures !IsLetter(c) ==> LowerChar(c) == c
  {
  }

  /** The pattern `pat` of a `LIKE '%pat%'` matches `text` at offset `i`:
      `_` stands for any one character, every other character for itself. */
  predicate MatchesAt(text: string, pat: string, i: int)
    requires 0 <= i && i + |pat| <= |text|
  {
    forall j :: 0 <= j < |pat| ==> pat[j] == '_' || pat[j] == text[i + j]
  }

  /** `text LIKE '%pat%'` for a pattern without `%` or `\`. */
  predicate LikeContains(text: string, pat: string) {
    exists i :: 0 <= i && i + |pat| <= |text| && MatchesAt(text, pat, i)
  }

  /** A text that contains the term literally matches the pattern. */
  lemma SubstringMatches(before: string, term: string, after: string)
    ensures LikeContains(before + term + after, term)
  {
    var text := before + term + after;
    assert MatchesAt(text, term, |before|) by {
      forall j | 0 <= j < |term|
        ensures term[j] == text[|before| + j]
      {
        assert text[|before| + j] == (before + term)[|before| + j];
      }
    }
  }

  /** A pattern longer than the text never matches. */
  lemma LongerPatternNeverMatches(text: string, pat: string)
    requires |pat| > |text|
    ensures !LikeContains(text, pat)
  {
  }

  /** Code-point (C collation) order on strings: `a` sorts before or equal to `b`. */
  predicate LexLe(a: string, b: string)
    decreases |a|
  {
    |a| == 0 || (|b| > 0 && (a[0] < b[0] || (a[0] == b[0] && LexLe(a[1..], b[1..]))))
  }

  lemma {:induction false} LexLeReflexive(a: string)
    ensures LexLe(a, a)
    decreases |a|
  {
    if |a| > 0 {
      LexLeReflexive(a[1..]);
    }
  }

  lemma {:induction false} LexLeTotal(a: string, b: string)
    ensures LexLe(a, b) || LexLe(b, a)
    decreases |a|
  {
    if |a| > 0 && |b| > 0 && a[0] == b[0] {
      LexLeTotal(a[1..], b[1..]);
    }
  }

  lemma {:induction false} LexLeTransitive(a: string, b: string, c: string)
    requires LexLe(a, b) && LexLe(b, c)
    ensures LexLe(a, c)
    decreases |a|
  {
    if |a| > 0 && a[0] == b[0] && b[0] == c[0] {
      LexLeTransitive(a[1..], b[1..], c[1..]);
    }
  }

  lemma {:induction false} LexLeAntisymmetric(a: string, b: string)
    requires LexLe(a, b) && LexLe(b, a)
    ensures a == b
    decreases |a|
  {
    if |a| > 0 {
      LexLeAntisymmetric(a[1..], b[1..]);
      assert a == [a[0]] + a[1..];
      assert b == [b[0]] + b[1..];
    }
  }
}
