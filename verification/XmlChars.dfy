/** The byte-level vocabulary of server/tinyxml2.h. A byte is a `char`; the
    contents of a C string is a `string` without its terminator, and reading at
    or past its end yields the terminator. */
module XmlChars {

  datatype Option<+T> = None | Some(value: T)

  const NUL: char := '\0'
  const LF: char := '\n'
  const CR: char := '\r'

  predicate IsWhiteSpace(c: char) {
    c == ' ' || '\t' <= c <= '\r'
  }

  predicate IsNameStartChar(c: char) {
    || c as int >= 128
    || 'a' <= c <= 'z'
    || 'A' <= c <= 'Z'
    || c == ':'
    || c == '_'
  }

  predicate IsNameChar(c: char) {
    IsNameStartChar(c) || '0' <= c <= '9' || c == '.' || c == '-'
  }

  /** The classes by code: tab to carriage return and space; letters, colon, underscore
      and everything beyond ASCII; and digits, full stop and hyphen. */
  lemma CharacterClasses(c: char)
    ensures NUL as int == 0 && LF as int == 10 && CR as int == 13
    ensures var code := c as int;
      var starts := 65 <= code <= 90 || 97 <= code <= 122 || code == 58 || code == 95 || code > 127;
      && (IsWhiteSpace(c) <==> code in {9, 10, 11, 12, 13, 32})
      && (IsNameStartChar(c) <==> starts)
      && (IsNameChar(c) <==> starts || 48 <= code <= 57 || code == 46 || code == 45)
  {
  }

  function At(s: string, i: nat): char {
    if i < |s| then s[i] else NUL
  }

  /** strncmp against a pattern that holds no NUL. */
  predicate StartsAt(s: string, i: nat, pattern: string) {
    i + |pattern| <= |s| && s[i..i + |pattern|] == pattern
  }

  predicate NoNul(s: string) {
    forall k :: 0 <= k < |s| ==> s[k] != NUL
  }

  /** Where SkipWhiteSpace stops. */
  function SkipWs(s: string, i: nat): (j: nat)
    requires i <= |s|
    ensures i <= j <= |s| && !IsWhiteSpace(At(s, j))
    ensures forall k :: i <= k < j ==> IsWhiteSpace(s[k])
    decreases |s| - i
  {
    if i < |s| && IsWhiteSpace(s[i]) then SkipWs(s, i + 1) else i
  }

  /** The line on which position `i` of `s` lies, counting from 1. */
  function LineAt(s: string, i: nat): (line: nat)
    requires i <= |s|
    ensures line >= 1
  {
    if i == 0 then 1 else LineAt(s, i - 1) + (if s[i - 1] == LF then 1 else 0)
  }

  /** Lines are counted from 1, one more behind each line feed. */
  lemma {:induction false} LineIsCount(s: string, i: nat)
    requires i <= |s|
    ensures LineAt(s, i) == 1 + multiset(s[..i])[LF]
  {
    if i > 0 {
      LineIsCount(s, i - 1);
      assert s[..i] == s[..i - 1] + [s[i - 1]];
    }
  }

  lemma {:induction false} SameLine(s: string, i: nat, j: nat)
    requires i <= j <= |s|
    requires forall k :: i <= k < j ==> s[k] != LF
    ensures LineAt(s, j) == LineAt(s, i)
    decreases j
  {
    if i < j {
      SameLine(s, i, j - 1);
    }
  }

  /** What a C string function sees of `s`: everything up to the first NUL. */
  function CString(s: string): (r: string)
    ensures |r| <= |s| && r == s[..|r|] && NoNul(r)
    ensures |r| < |s| ==> s[|r|] == NUL
  {
    if s == [] || s[0] == NUL then [] else [s[0]] + CString(s[1..])
  }

  lemma {:induction false} CStringUnique(s: string, n: nat)
    requires n <= |s| && NoNul(s[..n])
    requires n < |s| ==> s[n] == NUL
    ensures CString(s) == s[..n]
  {
    if n > 0 {
      assert s[..n][0] == s[0];
      assert s[1..][..n - 1] == s[..n][1..];
      CStringUnique(s[1..], n - 1);
    }
  }

  lemma StartsAtConcat(s: string, i: nat, a: string, b: string)
    requires StartsAt(s, i, a + b)
    ensures StartsAt(s, i, a) && StartsAt(s, i + |a|, b)
  {
    assert s[i..i + |a + b|][..|a|] == s[i..i + |a|];
    assert s[i..i + |a + b|][|a|..] == s[i + |a|..i + |a| + |b|];
    assert (a + b)[..|a|] == a && (a + b)[|a|..] == b;
  }

  lemma StartsAtChar(s: string, i: nat, c: char)
    ensures StartsAt(s, i, [c]) <==> i < |s| && s[i] == c
  {
  }
}
