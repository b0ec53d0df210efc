/**
 * Character classes and small scanning helpers shared by every pattern of the
 * extractor: Python's whitespace class (what `\s` matches, what `str.strip()`
 * removes), ASCII digits, and the character comparison `re.IGNORECASE` uses
 * for the ASCII letters of the labels.
 */
module Chars {

  /** The characters for which Python's `str.isspace()` holds; `\s` in a str
      pattern and `str.strip()` both use this class. */
  predicate IsSpace(c: char)
  {
    var n := c as int;
    n == 0x20 || 0x09 <= n <= 0x0D || 0x1C <= n <= 0x1F || n == 0x85 || n == 0xA0
    || n == 0x1680 || 0x2000 <= n <= 0x200A || n == 0x2028 || n == 0x2029
    || n == 0x202F || n == 0x205F || n == 0x3000
  }

  predicate IsDigit(c: char) {
    '0' <= c <= '9'
  }

  /** Simple lower-case mapping, restricted to the characters whose lower case is
      an ASCII letter: A-Z, the dotted capital I (U+0130) and the Kelvin sign (U+212A). */
  function Lower(c: char): char {
    if 'A' <= c <= 'Z' then (c as int + 32) as char
    else if c as int == 0x130 then 'i'
    else if c as int == 0x212A then 'k'
    else c
  }

  /** Whether text character `c` matches pattern character `p` under `re.IGNORECASE`:
      equal lower case, plus the two equivalences the regex compiler adds for ASCII
      letters (dotless i U+0131 for i, long s U+017F for s). */
  predicate SameIgnoringCase(c: char, p: char)
  {
    Lower(c) == Lower(p)
    || (Lower(p) == 'i' && c as int == 0x131)
    || (Lower(p) == 's' && c as int == 0x17F)
  }

  /** Among ASCII characters, whitespace is the blank, tab, line feed, vertical tab,
      form feed, carriage return and the four separators U+001C to U+001F; no digit
      or letter is whitespace. */
  lemma IsSpaceAscii(c: char)
    ensures c == ' ' || c == '\t' || c == '\n' || c == '\r' ==> IsSpace(c)
    ensures c as int < 0x80 ==> (IsSpace(c) <==> c == ' ' || '\t' <= c <= '\r' || 0x1C <= c as int <= 0x1F)
    ensures IsSpace(c) ==> !IsDigit(c) && !('A' <= c <= 'Z') && !('a' <= c <= 'z')
  {
  }

  /** Under `re.IGNORECASE` an upper-case ASCII letter of a pattern matches itself, its
      lower case, and only these further characters: both dotted and dotless I for
      `I`, the Kelvin sign for `K` and the long s for `S`. */
  lemma SameIgnoringCaseAscii(c: char, p: char)
    requires 'A' <= p <= 'Z'
    ensures SameIgnoringCase(c, p) <==>
      || c == p || c as int == p as int + 32
      || (p == 'I' && (c as int == 0x130 || c as int == 0x131))
      || (p == 'K' && c as int == 0x212A)
      || (p == 'S' && c as int == 0x17F)
  {
  }

  /** A text character that matches an upper-case ASCII letter of a pattern is
      neither whitespace nor a colon. */
  lemma LetterMatchIsNoSpace(c: char, p: char)
    requires 'A' <= p <= 'Z' && SameIgnoringCase(c, p)
    ensures !IsSpace(c) && c != ':'
  {
  }

  /** The literal `lit` occurs at position `p` of `t`, compared ignoring case. */
  predicate LitAt(t: string, p: nat, lit: string) {
    p + |lit| <= |t| && forall i :: 0 <= i < |lit| ==> SameIgnoringCase(t[p + i], lit[i])
  }

  /** `t[i..j]` is a (possibly empty) run of whitespace. */
  predicate Spaces(t: string, i: nat, j: nat) {
    i <= j <= |t| && forall k :: i <= k < j ==> IsSpace(t[k])
  }

  /** `t[i..j]` holds no newline, which is what `.` refuses to match. */
  predicate NoNewline(t: string, i: nat, j: nat) {
    i <= j <= |t| && forall k :: i <= k < j ==> t[k] != '\n'
  }

  /** End of the longest whitespace run starting at `i`: what a greedy `\s*` consumes. */
  function SkipSpaces(t: string, i: nat): (j: nat)
    requires i <= |t|
    ensures Spaces(t, i, j)
    ensures j == |t| || !IsSpace(t[j])
    decreases |t| - i
  {
    if i < |t| && IsSpace(t[i]) then SkipSpaces(t, i + 1) else i
  }

  /** The run end is unique: any whitespace run ending before a non-space is the one `SkipSpaces` finds. */
  lemma SkipSpacesUnique(t: string, i: nat, j: nat)
    requires Spaces(t, i, j)
    requires j == |t| || !IsSpace(t[j])
    ensures SkipSpaces(t, i) == j
  {
  }

  /** End of the longest digit run starting at `i`: what a greedy `\d+` consumes. */
  function SkipDigits(t: string, i: nat): (j: nat)
    requires i <= |t|
    ensures i <= j <= |t|
    ensures forall k :: i <= k < j ==> IsDigit(t[k])
    ensures j == |t| || !IsDigit(t[j])
    decreases |t| - i
  {
    if i < |t| && IsDigit(t[i]) then SkipDigits(t, i + 1) else i
  }

  /** Start of the whitespace run that ends `s`. */
  function TrailingStart(s: string): (j: nat)
    ensures Spaces(s, j, |s|)
    ensures j == 0 || !IsSpace(s[j - 1])
    decreases |s|
  {
    if |s| > 0 && IsSpace(s[|s| - 1]) then
      var j := TrailingStart(s[..|s| - 1]);
      assert Spaces(s[..|s| - 1], j, |s| - 1);
      j
    else |s|
  }

  /** True when `s` neither starts nor ends with whitespace. */
  predicate Trimmed(s: string) {
    |s| == 0 || (!IsSpace(s[0]) && !IsSpace(s[|s| - 1]))
  }

  /** Python's `str.strip()` with no argument. */
  function Strip(s: string): (r: string)
    ensures Trimmed(r)
    ensures exists i: nat :: Spaces(s, 0, i) && i + |r| <= |s| && r == s[i..i + |r|] && Spaces(s, i + |r|, |s|)
  {
    var i := SkipSpaces(s, 0);
    var j := TrailingStart(s);
    if j <= i then
      assert i == |s|;
      assert s[|s|..|s|] == [];
      []
    else
      s[i..j]
  }

  /** Stripping text that has no surrounding whitespace leaves it as it is. */
  lemma StripTrimmed(s: string)
    requires Trimmed(s)
    ensures Strip(s) == s
  {
    if |s| > 0 {
      SkipSpacesUnique(s, 0, 0);
    }
  }

  /** Text that continues at `p` with `a` and then `b` holds `a` from `p` and `b` right after it. */
  lemma SuffixSplit(t: string, p: nat, a: string, b: string)
    requires p <= |t| && t[p..] == a + b
    ensures p + |a| <= |t| && t[p..p + |a|] == a && t[p + |a|..] == b
  {
    assert t[p..p + |a|] == t[p..][..|a|];
    assert t[p + |a|..] == t[p..][|a|..];
  }

  /** The characters of a piece `t[p..p + |a|] == a`, one by one. */
  lemma SliceChars(t: string, p: nat, a: string)
    requires p + |a| <= |t| && t[p..p + |a|] == a
    ensures forall i :: 0 <= i < |a| ==> t[p + i] == a[i]
  {
    forall i | 0 <= i < |a|
      ensures t[p + i] == a[i]
    {
      assert t[p..p + |a|][i] == t[p + i];
    }
  }

  /** The trailing whitespace run is unique: a run reaching the end of `s` from just
      after a non-space (or from the start) begins where `TrailingStart` says. */
  lemma {:induction false} TrailingStartUnique(s: string, j: nat)
    requires Spaces(s, j, |s|) && (j == 0 || !IsSpace(s[j - 1]))
    ensures TrailingStart(s) == j
    decreases |s|
  {
    if j < |s| {
      var init := s[..|s| - 1];
      assert Spaces(init, j, |init|);
      assert j == 0 || !IsSpace(init[j - 1]);
      TrailingStartUnique(init, j);
    }
  }

  /** Stripping text padded with whitespace on both sides gives the text back. */
  lemma StripPadded(a: string, x: string, b: string)
    requires Spaces(a, 0, |a|) && Trimmed(x) && Spaces(b, 0, |b|)
    ensures Strip(a + (x + b)) == x
  {
    var s := a + (x + b);
    if |x| == 0 {
      assert Spaces(s, 0, |s|) by {
        assert s == a + b;
      }
      StripBlank(s);
    } else {
      var i, j := |a|, |a| + |x|;
      assert s[i..j] == x;
      assert Spaces(s, 0, i) && Spaces(s, j, |s|);
      assert !IsSpace(s[i]) && !IsSpace(s[j - 1]) by {
        assert s[i] == x[0] && s[j - 1] == x[|x| - 1];
      }
      StripBetween(s, i, j);
    }
  }

  /** A text of whitespace only strips to the empty text. */
  lemma StripBlank(s: string)
    requires Spaces(s, 0, |s|)
    ensures Strip(s) == []
  {
    SkipSpacesUnique(s, 0, |s|);
    TrailingStartUnique(s, 0);
  }

  /** Whitespace before `i` and from `j` on, with non-space characters at both ends of
      `s[i..j]`: stripping leaves exactly `s[i..j]`. */
  lemma StripBetween(s: string, i: nat, j: nat)
    requires i < j <= |s| && Spaces(s, 0, i) && Spaces(s, j, |s|)
    requires !IsSpace(s[i]) && !IsSpace(s[j - 1])
    ensures Strip(s) == s[i..j]
  {
    SkipSpacesUnique(s, 0, i);
    TrailingStartUnique(s, j);
  }
}
