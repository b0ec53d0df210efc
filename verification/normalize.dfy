/**
 * The text normalizer: the page texts of the document are concatenated in
 * page order and every maximal whitespace run is replaced by one space,
 * as `re.sub(r"\s+", " ", text)` does. The ends are not trimmed.
 */
module Normalize {
  import opened Chars

  /** Whitespace appears only as single `' '` characters: every whitespace character
      is a space and is followed by a non-whitespace character or by the end. */
  predicate Collapsed(s: string)
    decreases |s|
  {
    |s| == 0
    || ((IsSpace(s[0]) ==> s[0] == ' ' && (|s| == 1 || !IsSpace(s[1]))) && Collapsed(s[1..]))
  }

  /** The non-whitespace characters of `s`, in order. */
  function NonSpace(s: string): string
    decreases |s|
  {
    if |s| == 0 then []
    else (if IsSpace(s[0]) then [] else [s[0]]) + NonSpace(s[1..])
  }

  /** `re.sub(r"\s+", " ", s)`. Inside a whitespace run every character but the last
      is dropped and the last one becomes a space. */
  function Collapse(s: string): (r: string)
    ensures |r| <= |s|
    ensures |r| == 0 <==> |s| == 0
    ensures |s| > 0 ==> (r[0] == ' ' <==> IsSpace(s[0])) && (!IsSpace(s[0]) ==> r[0] == s[0])
    ensures |s| > 0 ==> (r[|r| - 1] == ' ' <==> IsSpace(s[|s| - 1]))
    decreases |s|
  {
    if |s| == 0 then []
    else if IsSpace(s[0]) && |s| > 1 && IsSpace(s[1]) then Collapse(s[1..])
    else [if IsSpace(s[0]) then ' ' else s[0]] + Collapse(s[1..])
  }

  /** The position-by-position reading of `Collapsed`. */
  lemma {:induction false} CollapsedIff(s: string)
    ensures Collapsed(s) <==>
      && (forall i :: 0 <= i < |s| && IsSpace(s[i]) ==> s[i] == ' ')
      && (forall i :: 0 < i < |s| && IsSpace(s[i]) ==> !IsSpace(s[i - 1]))
    decreases |s|
  {
    if |s| > 0 {
      CollapsedIff(s[1..]);
      var t := s[1..];
      assert forall i :: 0 < i < |s| ==> s[i] == t[i - 1];
    }
  }

  /** The collapse leaves no whitespace but single spaces. */
  lemma {:induction false} CollapseIsCollapsed(s: string)
    ensures Collapsed(Collapse(s))
    decreases |s|
  {
    if |s| > 0 {
      CollapseIsCollapsed(s[1..]);
      if !(IsSpace(s[0]) && |s| > 1 && IsSpace(s[1])) {
        var c := if IsSpace(s[0]) then ' ' else s[0];
        assert ([c] + Collapse(s[1..]))[1..] == Collapse(s[1..]);
      }
    }
  }

  /** A whitespace run at the front of `s` contributes exactly one space. */
  lemma {:induction false} CollapseLeadingRun(s: string, j: nat)
    requires 0 < j <= |s|
    requires Spaces(s, 0, j)
    requires j == |s| || !IsSpace(s[j])
    ensures Collapse(s) == [' '] + Collapse(s[j..])
    decreases j
  {
    if j > 1 {
      assert Spaces(s[1..], 0, j - 1);
      CollapseLeadingRun(s[1..], j - 1);
      assert s[1..][j - 1..] == s[j..];
    }
  }

  /** Collapsed text is a fixed point: nothing changes it. */
  lemma {:induction false} CollapseFixpoint(s: string)
    requires Collapsed(s)
    ensures Collapse(s) == s
    decreases |s|
  {
    if |s| > 0 {
      CollapseFixpoint(s[1..]);
      assert Collapse(s) == [s[0]] + s[1..];
    }
  }

  /** The fixed points of the collapse are exactly the collapsed strings. */
  lemma CollapseFixpointIff(s: string)
    ensures Collapse(s) == s <==> Collapsed(s)
  {
    if Collapsed(s) {
      CollapseFixpoint(s);
    } else if Collapse(s) == s {
      CollapseIsCollapsed(s);
    }
  }

  /** Collapsing twice is collapsing once. */
  lemma CollapseIdempotent(s: string)
    ensures Collapse(Collapse(s)) == Collapse(s)
  {
    CollapseIsCollapsed(s);
    CollapseFixpoint(Collapse(s));
  }

  /** A whitespace run between two pieces of text becomes exactly one space and the
      pieces on either side are collapsed on their own. */
  lemma {:induction false} CollapseRun(a: string, w: string, b: string)
    requires |a| == 0 || !IsSpace(a[|a| - 1])
    requires |w| > 0 && Spaces(w, 0, |w|)
    requires |b| == 0 || !IsSpace(b[0])
    ensures Collapse(a + (w + b)) == Collapse(a) + ([' '] + Collapse(b))
    decreases |a|
  {
    if |a| == 0 {
      RunAtFront(w, b);
      assert a + (w + b) == w + b;
    } else {
      CollapseRun(a[1..], w, b);
      HeadStep(a, w + b);
    }
  }

  lemma RunAtFront(w: string, b: string)
    requires |w| > 0 && Spaces(w, 0, |w|)
    requires |b| == 0 || !IsSpace(b[0])
    ensures Collapse(w + b) == [' '] + Collapse(b)
  {
    var s := w + b;
    CollapseLeadingRun(s, |w|);
    assert s[|w|..] == b;
  }

  /** The first character of `a` is treated the same way whatever follows `a`, as long
      as `a` does not end in whitespace. */
  lemma HeadStep(a: string, rest: string)
    requires |a| > 0 && !IsSpace(a[|a| - 1])
    ensures Collapse(a + rest) == if IsSpace(a[0]) && |a| > 1 && IsSpace(a[1])
      then Collapse(a[1..] + rest)
      else [if IsSpace(a[0]) then ' ' else a[0]] + Collapse(a[1..] + rest)
  {
    var s := a + rest;
    assert s[0] == a[0];
    assert s[1..] == a[1..] + rest;
    if |a| > 1 {
      assert s[1] == a[1];
    }
  }

  lemma {:induction false} NonSpaceAppend(a: string, b: string)
    ensures NonSpace(a + b) == NonSpace(a) + NonSpace(b)
    decreases |a|
  {
    if |a| > 0 {
      assert (a + b)[0] == a[0];
      assert (a + b)[1..] == a[1..] + b;
      NonSpaceAppend(a[1..], b);
    } else {
      assert a + b == b;
    }
  }

  /** Every non-whitespace character survives the collapse, in order, and only spaces
      are added or removed. */
  lemma {:induction false} CollapseKeepsText(s: string)
    ensures NonSpace(Collapse(s)) == NonSpace(s)
    decreases |s|
  {
    if |s| > 0 {
      CollapseKeepsText(s[1..]);
      if !(IsSpace(s[0]) && |s| > 1 && IsSpace(s[1])) {
        var c := if IsSpace(s[0]) then ' ' else s[0];
        NonSpaceAppend([c], Collapse(s[1..]));
      }
    }
  }

  /** One step of a left-to-right pass: a whole whitespace run, or one other character. */
  lemma CollapseStep(s: string, i: nat, j: nat)
    requires i < |s|
    requires j == if IsSpace(s[i]) then SkipSpaces(s, i) else i + 1
    ensures i < j <= |s|
    ensures Collapse(s[i..]) == [if IsSpace(s[i]) then ' ' else s[i]] + Collapse(s[j..])
  {
    var rest := s[i..];
    if IsSpace(s[i]) {
      assert Spaces(rest, 0, j - i);
      CollapseLeadingRun(rest, j - i);
    }
    assert rest[j - i..] == s[j..];
  }

  lemma AppendOne(r: string, c: char, tail: string)
    ensures (r + [c]) + tail == r + ([c] + tail)
  {
  }

  /** The collapse as a single left-to-right pass over the runs of the text, the way
      the substitution scans its input. */
  method CollapseWhitespace(s: string) returns (r: string)
    ensures r == Collapse(s)
  {
    r := [];
    var i: nat := 0;
    while i < |s|
      invariant i <= |s|
      invariant r + Collapse(s[i..]) == Collapse(s)
    {
      var j := if IsSpace(s[i]) then SkipSpaces(s, i) else i + 1;
      var piece := if IsSpace(s[i]) then ' ' else s[i];
      assert i < j <= |s| && Collapse(s[i..]) == [piece] + Collapse(s[j..]) by {
        CollapseStep(s, i, j);
      }
      AppendOne(r, piece, Collapse(s[j..]));
      r := r + [piece];
      i := j;
    }
    assert s[i..] == [];
  }

  /** The page texts joined in page order. */
  function Concat(pages: seq<string>): string
  {
    if |pages| == 0 then "" else Concat(pages[..|pages| - 1]) + pages[|pages| - 1]
  }

  /** The document text handed to the extractor: the pages' texts appended one after
      another, then collapsed. The page texts themselves come from the PDF library. */
  method ExtractText(pages: seq<string>) returns (text: string)
    ensures text == Collapse(Concat(pages))
    ensures Collapsed(text)
  {
    var raw := "";
    var n: nat := 0;
    while n < |pages|
      invariant n <= |pages|
      invariant raw == Concat(pages[..n])
    {
      assert pages[..n + 1][..n] == pages[..n];
      raw := raw + pages[n];
      n := n + 1;
    }
    assert pages[..|pages|] == pages;
    text := CollapseWhitespace(raw);
    CollapseIsCollapsed(raw);
  }
}
