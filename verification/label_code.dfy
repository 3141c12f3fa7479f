/** The OCR label-code normalizer: the success-listener body of
    `analyzeImageProxy` in the OCR camera screen, from the trimmed recognizer
    text to the corrected candidate compared across frames.

    The pattern is `\b([A-Z]{3}[A-Z0-9]{4})-([A-Z0-9]{6})-([A-Z0-9])\b`. Every
    quantifier in it is fixed, so a match is always a window of 16 characters
    and the first match is the leftmost window that fits the pattern and has a
    word boundary on both sides. */
module LabelCode {
  import opened Wrappers
  import opened Text

  /** Length of every match: 7 + 1 + 6 + 1 + 1. */
  const CodeLength: nat := 16
  /** Offsets of the two hyphens inside a match. */
  const FirstDash: nat := 7
  const SecondDash: nat := 14
  /** The leading characters the pattern restricts to letters. */
  const LetterPrefix: nat := 3

  predicate IsUpper(c: char) { 'A' <= c <= 'Z' }
  predicate IsDigit(c: char) { '0' <= c <= '9' }
  predicate IsUpperOrDigit(c: char) { IsUpper(c) || IsDigit(c) }

  /** The word characters `\b` separates from the rest, taken as ASCII
      `[A-Za-z0-9_]`. */
  predicate IsWordChar(c: char) {
    IsUpperOrDigit(c) || ('a' <= c <= 'z') || c == '_'
  }

  /** Position `j` of `s` holds a word character; outside `s` nothing does. */
  predicate IsWordAt(s: string, j: int) {
    0 <= j < |s| && IsWordChar(s[j])
  }

  /** `\b` at position `i`: a word character on exactly one side. */
  predicate WordBoundary(s: string, i: int) {
    IsWordAt(s, i - 1) != IsWordAt(s, i)
  }

  /** The character class the pattern puts at offset `k` of a match. */
  predicate Admits(k: int, c: char) {
    if k == FirstDash || k == SecondDash then c == '-'
    else if k < LetterPrefix then IsUpper(c)
    else IsUpperOrDigit(c)
  }

  /** The pattern without its word boundaries. */
  predicate IsCodeShape(w: string) {
    |w| == CodeLength && forall k :: 0 <= k < |w| ==> Admits(k, w[k])
  }

  /** The pattern matches `s` at offset `i`. */
  predicate MatchAt(s: string, i: int) {
    && 0 <= i
    && i + CodeLength <= |s|
    && IsCodeShape(s[i..i + CodeLength])
    && WordBoundary(s, i)
    && WordBoundary(s, i + CodeLength)
  }

  /** The first match at or after offset `k`: a leftmost-window search. */
  function FirstMatchFrom(s: string, k: nat): (r: Option<nat>)
    ensures r.Some? ==> k <= r.value && MatchAt(s, r.value)
    ensures r.Some? ==> forall j :: k <= j < r.value ==> !MatchAt(s, j)
    ensures r.None? ==> forall j :: k <= j ==> !MatchAt(s, j)
    decreases |s| - k
  {
    if k + CodeLength > |s| then None
    else if MatchAt(s, k) then Some(k)
    else FirstMatchFrom(s, k + 1)
  }

  /** `pattern.findAll(text).firstOrNull()`: the offset of the leftmost match. */
  function FirstMatch(s: string): (r: Option<nat>)
    ensures r.Some? ==> MatchAt(s, r.value) && forall j :: 0 <= j < r.value ==> !MatchAt(s, j)
    ensures r.None? ==> forall j :: !MatchAt(s, j)
  {
    FirstMatchFrom(s, 0)
  }

  /** `match?.value`: the text of the leftmost match, if any. */
  function MatchedText(s: string): Option<string> {
    match FirstMatch(s)
    case None => None
    case Some(i) => Some(s[i..i + CodeLength])
  }

  /** The per-character rule applied to the first segment (`mapIndexed`). */
  function FixHead(index: int, c: char): char {
    if index < LetterPrefix && c == '0' then 'O'
    else if index >= LetterPrefix && c == 'O' then '0'
    else if index >= LetterPrefix && c == 'I' then '1'
    else c
  }

  /** Correction of the first segment: a zero among the first three
      characters is read as the letter O; from the fourth character on, the
      letters O and I are read as the digits 0 and 1. */
  function CorrectHead(p: string): (r: string)
    ensures |r| == |p|
    ensures forall k :: 0 <= k < |p| && k < LetterPrefix && p[k] == '0' ==> r[k] == 'O'
    ensures forall k :: LetterPrefix <= k < |p| && p[k] == 'O' ==> r[k] == '0'
    ensures forall k :: LetterPrefix <= k < |p| && p[k] == 'I' ==> r[k] == '1'
    ensures forall k ::
      (0 <= k < |p| && !(k < LetterPrefix && p[k] == '0') && !(LetterPrefix <= k && (p[k] == 'O' || p[k] == 'I')))
      ==> r[k] == p[k]
    ensures forall k :: 0 <= k < |r| && k < LetterPrefix ==> r[k] != '0'
    ensures forall k :: LetterPrefix <= k < |r| ==> r[k] != 'O' && r[k] != 'I'
  {
    seq(|p|, k requires 0 <= k < |p| => FixHead(k, p[k]))
  }

  /** Correction of the second and third segments:
      `replace('O', '0').replace('I', '1')`. */
  function CorrectTail(p: string): (r: string)
    ensures |r| == |p|
    ensures forall k :: 0 <= k < |r| ==> r[k] != 'O' && r[k] != 'I'
    ensures forall k :: 0 <= k < |p| && p[k] == 'O' ==> r[k] == '0'
    ensures forall k :: 0 <= k < |p| && p[k] == 'I' ==> r[k] == '1'
    ensures forall k :: 0 <= k < |p| && p[k] != 'O' && p[k] != 'I' ==> r[k] == p[k]
  {
    Replace(Replace(p, 'O', '0'), 'I', '1')
  }

  /** The success-listener body up to `correctedText`: trim, take the first
      match, reject a blank one, split it on hyphens, insist on three parts,
      correct each part and join them again. `None` means the frame yields no
      candidate. */
  function Normalize(raw: string): Option<string> {
    var text := Trim(raw);
    match MatchedText(text)
    case None => None
    case Some(original) =>
      if IsBlank(original) then None
      else
        var parts := Split(original, '-');
        if |parts| == 3 then
          Some(CorrectHead(parts[0]) + "-" + CorrectTail(parts[1]) + "-" + CorrectTail(parts[2]))
        else None
  }

  // ---------------------------------------------------------------------------
  // An independent, position-by-position statement of the correction.

  /** Offsets of a match where the pattern admits a digit. */
  predicate DigitSlot(k: int) {
    (LetterPrefix <= k < FirstDash) || (FirstDash < k < SecondDash) || k == SecondDash + 1
  }

  /** Reads a letter O or I as the digit it is confused with. */
  function AsDigit(c: char): char {
    if c == 'O' then '0' else if c == 'I' then '1' else c
  }

  /** The intended correction of a match: O and I become 0 and 1 wherever the
      pattern admits a digit; every other character is kept. */
  function Corrected(m: string): (r: string)
    ensures |r| == |m|
  {
    seq(|m|, k requires 0 <= k < |m| => if DigitSlot(k) then AsDigit(m[k]) else m[k])
  }

  /** A normalized label code: the pattern's shape, with no O or I left where
      a digit may stand. */
  predicate IsNormalized(v: string) {
    && IsCodeShape(v)
    && forall k :: 0 <= k < |v| && DigitSlot(k) ==> v[k] != 'O' && v[k] != 'I'
  }

  // ---------------------------------------------------------------------------
  // Properties.

  /** A match is never blank and always splits on `-` into the segments of 7,
      6 and 1 characters, so neither guard of the listener ever rejects it. */
  lemma MatchSplitsInThree(w: string)
    requires IsCodeShape(w)
    ensures !IsBlank(w)
    ensures Split(w, '-') == [w[..FirstDash], w[FirstDash + 1..SecondDash], w[SecondDash + 1..]]
  {
    assert !IsBlank(w) by { assert Admits(0, w[0]); }
    var p1, p2, p3 := w[..FirstDash], w[FirstDash + 1..SecondDash], w[SecondDash + 1..];
    forall k | 0 <= k < |p1| ensures p1[k] != '-' { assert Admits(k, w[k]); }
    forall k | 0 <= k < |p2| ensures p2[k] != '-' {
      assert Admits(k + FirstDash + 1, w[k + FirstDash + 1]);
    }
    forall k | 0 <= k < |p3| ensures p3[k] != '-' {
      assert Admits(k + SecondDash + 1, w[k + SecondDash + 1]);
    }
    assert w[FirstDash + 1..] == p2 + ['-'] + p3;
    assert w == p1 + ['-'] + w[FirstDash + 1..];
    SplitAtFirst(p1, '-', p2 + ['-'] + p3);
    SplitAtFirst(p2, '-', p3);
    SplitWithoutDelimiter(p3, '-');
  }

  /** Splitting, correcting segment by segment and rejoining is the
      position-by-position correction. In particular the listener's
      `'0' -> 'O'` rule never fires: the pattern admits only letters in the
      first three places. */
  lemma SegmentCorrectionIsCorrected(w: string)
    requires IsCodeShape(w)
    ensures CorrectHead(w[..FirstDash]) + "-" + CorrectTail(w[FirstDash + 1..SecondDash])
            + "-" + CorrectTail(w[SecondDash + 1..]) == Corrected(w)
  {
    var h := CorrectHead(w[..FirstDash]);
    var t2 := CorrectTail(w[FirstDash + 1..SecondDash]);
    var t3 := CorrectTail(w[SecondDash + 1..]);
    var v := h + "-" + t2 + "-" + t3;
    var c := Corrected(w);
    forall k | 0 <= k < CodeLength ensures v[k] == c[k] {
      assert Admits(k, w[k]);
      if k < FirstDash {
        assert v[k] == h[k] == FixHead(k, w[k]);
      } else if FirstDash < k < SecondDash {
        assert v[k] == t2[k - FirstDash - 1];
      } else if k > SecondDash {
        assert v[k] == t3[k - SecondDash - 1];
      }
    }
  }

  /** Correcting a match yields a normalized code that differs from the
      match only where an O or I stood in a digit place; in particular the
      three leading letters pass through unchanged. */
  lemma {:induction false} CorrectedIsNormalized(m: string)
    requires IsCodeShape(m)
    ensures IsNormalized(Corrected(m))
    ensures Corrected(m)[..LetterPrefix] == m[..LetterPrefix]
    ensures forall k :: 0 <= k < |m| && !(DigitSlot(k) && (m[k] == 'O' || m[k] == 'I')) ==> Corrected(m)[k] == m[k]
  {
    var c := Corrected(m);
    forall k | 0 <= k < |c| ensures Admits(k, c[k]) {
      assert Admits(k, m[k]);
    }
  }

  /** The correction leaves a normalized code as it is. */
  lemma CorrectedFixesNormalized(v: string)
    requires IsNormalized(v)
    ensures Corrected(v) == v
  {
  }

  /** No character satisfying `pad` is a word character; in particular none
      can be part of a match. */
  predicate NeverInWord(pad: char -> bool) {
    forall c :: pad(c) ==> !IsWordChar(c)
  }

  /** Whitespace is not a word character. */
  lemma WhitespaceNeverInWord()
    ensures NeverInWord(IsWhitespace)
  {
  }

  /** Matching inside a slice of `s` surrounded by padding that is never part
      of a word is matching in `s` itself, shifted by the slice's start; and no
      match of `s` reaches into the padding. */
  lemma MatchInPaddedSlice(s: string, a: nat, t: string, pad: char -> bool, i: int)
    requires a + |t| <= |s| && t == s[a..a + |t|]
    requires NeverInWord(pad)
    requires forall k :: 0 <= k < a ==> pad(s[k])
    requires forall k :: a + |t| <= k < |s| ==> pad(s[k])
    ensures MatchAt(s, i) ==> a <= i && i + CodeLength <= a + |t|
    ensures MatchAt(t, i - a) <==> MatchAt(s, i)
  {
    if 0 <= i && i + CodeLength <= |s| {
      if i < a { MissingSlotBlocksMatch(s, i, 0); }
      if i + CodeLength > a + |t| { MissingSlotBlocksMatch(s, i, CodeLength - 1); }
    }
    var j := i - a;
    if 0 <= j && j + CodeLength <= |t| {
      SliceOfSlice(s, a, t, j);
      WordAtShift(s, a, t, pad, j - 1);
      WordAtShift(s, a, t, pad, j);
      WordAtShift(s, a, t, pad, j + CodeLength - 1);
      WordAtShift(s, a, t, pad, j + CodeLength);
    }
  }

  /** A window whose `k`-th character is not what the pattern admits there
      is not a match. */
  lemma MissingSlotBlocksMatch(s: string, i: nat, k: nat)
    requires i + CodeLength <= |s| && k < CodeLength
    requires !Admits(k, s[i + k])
    ensures !MatchAt(s, i)
  {
    assert s[i..i + CodeLength][k] == s[i + k];
  }

  /** A window of a slice is the shifted window of the whole. */
  lemma SliceOfSlice(s: string, a: nat, t: string, j: nat)
    requires a + |t| <= |s| && t == s[a..a + |t|]
    requires j + CodeLength <= |t|
    ensures t[j..j + CodeLength] == s[a + j..a + j + CodeLength]
  {
    var u, v := t[j..j + CodeLength], s[a + j..a + j + CodeLength];
    forall k | 0 <= k < CodeLength ensures u[k] == v[k] {
      assert t[j + k] == s[a + j + k];
    }
  }

  /** Word characters of a padded slice sit at the same places in the padded
      string, and the padding has none. */
  lemma WordAtShift(s: string, a: nat, t: string, pad: char -> bool, j: int)
    requires a + |t| <= |s| && t == s[a..a + |t|]
    requires NeverInWord(pad)
    requires forall k :: 0 <= k < a ==> pad(s[k])
    requires forall k :: a + |t| <= k < |s| ==> pad(s[k])
    requires -1 <= j <= |t|
    ensures IsWordAt(t, j) == IsWordAt(s, a + j)
  {
    if j == -1 && a > 0 { assert pad(s[a - 1]); }
    if j == |t| && a + |t| < |s| { assert pad(s[a + |t|]); }
  }

  /** Trimming the recognized text never changes which window matches:
      `trim()` only removes whitespace, which is never part of a word. */
  lemma TrimKeepsMatch(s: string)
    ensures MatchedText(Trim(s)) == MatchedText(s)
  {
    WhitespaceNeverInWord();
    PaddedKeepsMatch(s, TrimStartIndex(s, IsWhitespace), Trim(s), IsWhitespace);
  }

  /** Padding that is never part of a word, around a slice, changes neither
      whether there is a match nor the matched text. */
  lemma PaddedKeepsMatch(s: string, a: nat, t: string, pad: char -> bool)
    requires a + |t| <= |s| && t == s[a..a + |t|]
    requires NeverInWord(pad)
    requires forall k :: 0 <= k < a ==> pad(s[k])
    requires forall k :: a + |t| <= k < |s| ==> pad(s[k])
    ensures MatchedText(t) == MatchedText(s)
  {
    if FirstMatch(s).Some? {
      var i := FirstMatch(s).value;
      MatchInPaddedSlice(s, a, t, pad, i);
      var j := i - a;
      forall j' | 0 <= j' < j ensures !MatchAt(t, j') {
        MatchInPaddedSlice(s, a, t, pad, j' + a);
      }
      LeftmostIsFirst(t, j);
      SliceOfSlice(s, a, t, j);
    } else if FirstMatch(t).Some? {
      MatchInPaddedSlice(s, a, t, pad, FirstMatch(t).value + a);
    }
  }

  /** A match with none to its left is the first match. */
  lemma LeftmostIsFirst(s: string, i: int)
    requires MatchAt(s, i)
    requires forall j :: 0 <= j < i ==> !MatchAt(s, j)
    ensures FirstMatch(s) == Some(i)
  {
  }

  /** What the normalizer computes: a candidate exactly when the trimmed text
      (equivalently, the raw text) has a match, and then the position-by-
      position correction of the leftmost match. */
  lemma NormalizeIsCorrectedMatch(raw: string)
    ensures Normalize(raw).Some? <==> MatchedText(raw).Some?
    ensures MatchedText(raw).Some? ==> Normalize(raw) == Some(Corrected(MatchedText(raw).value))
  {
    TrimKeepsMatch(raw);
    match MatchedText(Trim(raw))
    case None =>
    case Some(m) =>
      var i := FirstMatch(Trim(raw)).value;
      assert IsCodeShape(Trim(raw)[i..i + CodeLength]);
      MatchSplitsInThree(m);
      SegmentCorrectionIsCorrected(m);
  }

  /** Every candidate is a normalized label code: 16 characters, hyphens at
      offsets 7 and 14, the pattern's character classes, no O or I where a
      digit may stand; its first three letters are those of the match and
      every character not corrected is the match's own. */
  lemma NormalizeShape(raw: string)
    requires Normalize(raw).Some?
    ensures var v := Normalize(raw).value;
      && IsNormalized(v)
      && |v| == CodeLength && v[FirstDash] == '-' && v[SecondDash] == '-'
      && Split(v, '-') == [v[..FirstDash], v[FirstDash + 1..SecondDash], v[SecondDash + 1..]]
    ensures MatchedText(raw).Some?
    ensures var v := Normalize(raw).value; var m := MatchedText(raw).value;
      && v[..LetterPrefix] == m[..LetterPrefix]
      && forall k :: 0 <= k < |m| && !(DigitSlot(k) && (m[k] == 'O' || m[k] == 'I')) ==> v[k] == m[k]
  {
    NormalizeIsCorrectedMatch(raw);
    var m := MatchedText(raw).value;
    var i := FirstMatch(raw).value;
    assert IsCodeShape(raw[i..i + CodeLength]);
    CorrectedIsNormalized(m);
    var v := Normalize(raw).value;
    assert Admits(FirstDash, v[FirstDash]) && Admits(SecondDash, v[SecondDash]);
    MatchSplitsInThree(v);
  }

  /** A normalized label code standing alone is its own candidate. */
  lemma NormalizeFixesNormalized(v: string)
    requires IsNormalized(v)
    ensures Normalize(v) == Some(v)
  {
    assert Admits(0, v[0]) && Admits(CodeLength - 1, v[CodeLength - 1]);
    assert IsWordAt(v, 0) && IsWordAt(v, CodeLength - 1);
    assert v[0..CodeLength] == v;
    assert MatchAt(v, 0);
    assert MatchedText(v) == Some(v);
    NormalizeIsCorrectedMatch(v);
    CorrectedFixesNormalized(v);
  }

  /** Normalization is idempotent. */
  lemma NormalizeIdempotent(raw: string)
    requires Normalize(raw).Some?
    ensures Normalize(Normalize(raw).value) == Normalize(raw)
  {
    NormalizeShape(raw);
    NormalizeFixesNormalized(Normalize(raw).value);
  }

  // ---------------------------------------------------------------------------
  // Worked examples.

  /** The sample code fits the pattern's shape, and its correction. */
  lemma ExampleCode(w: string)
    requires w == "ABC123X-456O1I-O"
    ensures IsCodeShape(w)
    ensures Corrected(w) == "ABC123X-456011-0"
  {
    forall k | 0 <= k < |w| ensures Admits(k, w[k]) {
      assert k < 3 ==> IsUpper(w[k]);
      assert k != FirstDash && k != SecondDash ==> IsUpperOrDigit(w[k]);
    }
    var c := Corrected(w);
    var e := "ABC123X-456011-0";
    forall k | 0 <= k < |c| ensures c[k] == e[k] {
      assert c[k] == if DigitSlot(k) then AsDigit(w[k]) else w[k];
    }
  }

  /** A code with O and I misread in its digit segments. */
  lemma ExampleCorrection(w: string)
    requires w == "ABC123X-456O1I-O"
    ensures Normalize(w) == Some("ABC123X-456011-0")
  {
    ExampleCode(w);
    assert w[0..CodeLength] == w;
    assert MatchAt(w, 0);
    assert MatchedText(w) == Some(w);
    NormalizeIsCorrectedMatch(w);
    assert Normalize(w) == Some(Corrected(w));
  }

  /** A letter glued to the front of a code removes the word boundary, so
      there is no candidate. */
  lemma ExampleNoBoundary(s: string)
    requires s == "XABC123X-456O1I-O"
    ensures Normalize(s) == None
  {
    assert !MatchAt(s, 0) by { assert s[0..CodeLength][FirstDash] == 'X'; }
    assert !WordBoundary(s, 1);
    assert FirstMatch(s) == None;
    NormalizeIsCorrectedMatch(s);
  }

  /** Text around the code, on other lines, does not disturb it. */
  lemma ExampleSurroundingText(before: string, w: string, after: string)
    requires before == " LOT\n" && w == "ABC123X-456O1I-O" && after == " EXP\n"
    ensures Normalize(before + w + after) == Some("ABC123X-456011-0")
  {
    var s := before + w + after;
    assert s[5..5 + CodeLength] == w by {
      assert s == before + (w + after);
      assert (w + after)[..CodeLength] == w;
    }
    ExampleCode(w);
    assert MatchAt(s, 5);
    forall j | 0 <= j < 5 ensures !MatchAt(s, j) {
      MissingSlotBlocksMatch(s, j, FirstDash);
    }
    LeftmostIsFirst(s, 5);
    assert MatchedText(s) == Some(w);
    NormalizeIsCorrectedMatch(s);
    assert Normalize(s) == Some(Corrected(w));
  }
}
