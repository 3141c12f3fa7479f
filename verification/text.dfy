/** The pieces of the Kotlin string library the label-code normalizer relies on:
    `trim()`, `isBlank()`, `replace(Char, Char)`, `split(String)` and joining
    with a separator. A character is a Unicode scalar value; every character
    these functions look at lies in the Basic Multilingual Plane, where that
    is the JVM's UTF-16 code unit. */
module Text {

  /** Kotlin's `Char.isWhitespace()`: Java's `Character.isWhitespace` (the ASCII
      controls TAB..CR and FS..US, and the space separators other than the
      no-break ones) together with `Character.isSpaceChar` (every space, line
      and paragraph separator, the no-break ones included). */
  predicate IsWhitespace(c: char) {
    || c == ' '
    || ('\t' <= c <= '\r')
    || ('\U{1C}' <= c <= '\U{1F}')
    || c == '\U{A0}'
    || c == '\U{1680}'
    || ('\U{2000}' <= c <= '\U{200A}')
    || c == '\U{2028}' || c == '\U{2029}'
    || c == '\U{202F}' || c == '\U{205F}' || c == '\U{3000}'
  }

  /** Every character of `s` satisfies `p`. */
  predicate All(s: string, p: char -> bool) {
    forall k :: 0 <= k < |s| ==> p(s[k])
  }

  /** `CharSequence.isBlank()`: empty, or whitespace only. */
  predicate IsBlank(s: string) {
    All(s, IsWhitespace)
  }

  /** Where the forward scan of Kotlin's `trim(predicate)` stops: the first
      index at or after `i` whose character does not satisfy `p`, or `|s|`. */
  function ScanForward(s: string, p: char -> bool, i: nat): (a: nat)
    requires i <= |s|
    ensures i <= a <= |s|
    ensures forall k :: i <= k < a ==> p(s[k])
    ensures a < |s| ==> !p(s[a])
    decreases |s| - i
  {
    if i < |s| && p(s[i]) then ScanForward(s, p, i + 1) else i
  }

  /** Where the backward scan of `trim(predicate)` stops: just past the last
      index in `lo..j` whose character does not satisfy `p`, or `lo`. */
  function ScanBackward(s: string, p: char -> bool, lo: nat, j: nat): (b: nat)
    requires lo <= j <= |s|
    ensures lo <= b <= j
    ensures forall k :: b <= k < j ==> p(s[k])
    ensures b > lo ==> !p(s[b - 1])
    decreases j
  {
    if j > lo && p(s[j - 1]) then ScanBackward(s, p, lo, j - 1) else j
  }

  /** Index of the first character `trim(predicate)` keeps. */
  function TrimStartIndex(s: string, p: char -> bool): nat {
    ScanForward(s, p, 0)
  }

  /** `trim(predicate)`: the longest slice of `s` that neither starts nor
      ends with a character satisfying `p`, everything cut off satisfying
      `p`. */
  function TrimBy(s: string, p: char -> bool): (r: string)
    ensures var a := TrimStartIndex(s, p);
      && a + |r| <= |s|
      && r == s[a..a + |r|]
      && (forall k :: 0 <= k < a ==> p(s[k]))
      && (forall k :: a + |r| <= k < |s| ==> p(s[k]))
    ensures |r| > 0 ==> !p(r[0]) && !p(r[|r| - 1])
  {
    var a := ScanForward(s, p, 0);
    var b := ScanBackward(s, p, a, |s|);
    s[a..b]
  }

  /** `String.trim()`: `trim(Char::isWhitespace)`. */
  function Trim(s: string): string {
    TrimBy(s, IsWhitespace)
  }

  /** `String.replace(oldChar, newChar)`: every occurrence of `a` becomes `b`,
      every other character stays where it was. */
  function Replace(s: string, a: char, b: char): (r: string)
    ensures |r| == |s|
    ensures forall k :: 0 <= k < |s| && s[k] == a ==> r[k] == b
    ensures forall k :: 0 <= k < |s| && s[k] != a ==> r[k] == s[k]
  {
    if |s| == 0 then [] else [if s[0] == a then b else s[0]] + Replace(s[1..], a, b)
  }

  /** Number of occurrences of `d` in `s`. */
  function Occurrences(s: string, d: char): nat {
    if |s| == 0 then 0 else (if s[0] == d then 1 else 0) + Occurrences(s[1..], d)
  }

  /** `CharSequence.split(delimiter)` for a one-character delimiter and no limit:
      every piece is kept, empty ones included, so there is always one piece
      more than there are delimiters. */
  function Split(s: string, d: char): (r: seq<string>)
    ensures |r| == Occurrences(s, d) + 1
    ensures forall p :: p in r ==> d !in p
  {
    if |s| == 0 then [""]
    else
      var rest := Split(s[1..], d);
      if s[0] == d then [""] + rest
      else [[s[0]] + rest[0]] + rest[1..]
  }

  /** `joinToString(separator)` with a one-character separator. */
  function Join(parts: seq<string>, d: char): string {
    if |parts| == 0 then ""
    else if |parts| == 1 then parts[0]
    else parts[0] + [d] + Join(parts[1..], d)
  }

  /** Joining the pieces of a split with the same delimiter gives back the string. */
  lemma {:induction false} JoinSplit(s: string, d: char)
    ensures Join(Split(s, d), d) == s
  {
    if |s| > 0 {
      var rest := Split(s[1..], d);
      JoinSplit(s[1..], d);
      if s[0] == d {
        assert Split(s, d) == [""] + rest;
        assert ([""] + rest)[1..] == rest;
      } else {
        var parts := [[s[0]] + rest[0]] + rest[1..];
        assert Split(s, d) == parts;
        if |rest| == 1 {
          assert Join(parts, d) == [s[0]] + rest[0];
        } else {
          assert parts[1..] == rest[1..];
          assert Join(parts, d) == [s[0]] + (rest[0] + [d] + Join(rest[1..], d));
        }
        assert [s[0]] + s[1..] == s;
      }
    }
  }

  /** A string without the delimiter is one piece. */
  lemma {:induction false} SplitWithoutDelimiter(s: string, d: char)
    requires d !in s
    ensures Split(s, d) == [s]
  {
    if |s| > 0 {
      SplitWithoutDelimiter(s[1..], d);
      assert [s[0]] + s[1..] == s;
    }
  }

  /** Splitting at the first delimiter peels off the text before it. */
  lemma {:induction false} SplitAtFirst(a: string, d: char, b: string)
    requires d !in a
    ensures Split(a + [d] + b, d) == [a] + Split(b, d)
  {
    if |a| == 0 {
      assert a + [d] + b == [d] + b;
      assert ([d] + b)[1..] == b;
    } else {
      var s := a + [d] + b;
      assert s[1..] == a[1..] + [d] + b;
      SplitAtFirst(a[1..], d, b);
      assert [a[0]] + a[1..] == a;
    }
  }
}
