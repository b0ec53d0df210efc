/**
 * The three shapes of regular expression the extractor searches for, each as a
 * dedicated scanner over the text, and `re.search` over them: the leftmost
 * position where the pattern matches, and at that position the match the
 * backtracking order prefers. All label comparisons ignore case.
 *
 *   Field(L, E)  models  L\s*:\s*(.*?)\s*E
 *   Count(L)     models  L\s*:?\s*AGE UMUR\s*:\s*(\d+)
 *   Block(L, E)  models  L(.*?)E
 */
module Patterns {
  import opened Wrappers
  import opened Chars

  /** A label with its spellings in the order the regex tries them: the optional
      comma of `TEMPAT,? TGL LAHIR` gives ["TEMPAT, TGL LAHIR", "TEMPAT TGL LAHIR"]. */
  type Label = seq<string>

  /** Every spelling is non-empty and starts with an upper-case ASCII letter, so a
      label never starts inside a whitespace run. All labels of the layout are so. */
  predicate WellFormed(l: Label) {
    |l| > 0 && forall a :: a in l ==> |a| > 0 && 'A' <= a[0] <= 'Z'
  }

  /** Some spelling of `l` occurs at position `p` of `t`. */
  predicate LabelAt(t: string, p: nat, l: Label)
    decreases |l|
  {
    |l| > 0 && (LitAt(t, p, l[0]) || LabelAt(t, p, l[1..]))
  }

  /** `LabelAt` holds exactly when one of the spellings occurs. */
  lemma {:induction false} LabelAtIff(t: string, p: nat, l: Label)
    ensures LabelAt(t, p, l) <==> exists a :: a in l && LitAt(t, p, a)
    decreases |l|
  {
    if |l| > 0 {
      LabelAtIff(t, p, l[1..]);
      assert forall a :: a in l <==> a == l[0] || a in l[1..];
    }
  }

  /** A well-formed label never starts on whitespace or a colon. */
  lemma {:induction false} LabelStartsWithNonSpace(t: string, p: nat, l: Label)
    requires WellFormed(l) && LabelAt(t, p, l)
    ensures p < |t| && !IsSpace(t[p]) && t[p] != ':'
    decreases |l|
  {
    if LitAt(t, p, l[0]) {
      LetterMatchIsNoSpace(t[p], l[0][0]);
    } else {
      assert forall a :: a in l[1..] ==> a in l;
      LabelStartsWithNonSpace(t, p, l[1..]);
    }
  }

  datatype Pattern =
    | Field(start: Label, stop: Label)
    | Count(start: Label)
    | Block(start: Label, stop: Label)

  predicate WellFormedPattern(pat: Pattern) {
    WellFormed(pat.start) && (pat.Count? || WellFormed(pat.stop))
  }

  /** The fixed middle label of the children patterns. */
  const AgeMarker: string := "AGE UMUR"

  /** The capture may end at `e`: the end label follows, after whitespace when `gap`
      holds (the `\s*` before the end label of a Field pattern). */
  predicate Closes(t: string, e: nat, stop: Label, gap: bool)
    requires e <= |t|
  {
    LabelAt(t, if gap then SkipSpaces(t, e) else e, stop)
  }

  /** The lazy `(.*?)`: the first end position at or after `e` where the end label
      closes the capture, provided no newline lies in between (`.` refuses `\n`). */
  function LazyEnd(t: string, e: nat, stop: Label, gap: bool): (r: Option<nat>)
    requires e <= |t|
    ensures r.Some? ==> e <= r.value <= |t|
    decreases |t| - e
  {
    if Closes(t, e, stop, gap) then Some(e)
    else if e < |t| && t[e] != '\n' then LazyEnd(t, e + 1, stop, gap)
    else None
  }

  /** The lazy end is the nearest place the capture can close: the capture crosses no
      newline, the end label closes it there and nowhere earlier, and when there is no
      such place every newline-free stretch fails to close. */
  lemma {:induction false} LazyEndSpec(t: string, e: nat, stop: Label, gap: bool)
    requires e <= |t|
    ensures LazyEnd(t, e, stop, gap).Some? ==>
      var r := LazyEnd(t, e, stop, gap).value;
      NoNewline(t, e, r) && Closes(t, r, stop, gap) && forall k :: e <= k < r ==> !Closes(t, k, stop, gap)
    ensures LazyEnd(t, e, stop, gap).None? ==>
      forall k :: e <= k <= |t| && NoNewline(t, e, k) ==> !Closes(t, k, stop, gap)
    decreases |t| - e
  {
    if !Closes(t, e, stop, gap) && e < |t| && t[e] != '\n' {
      LazyEndSpec(t, e + 1, stop, gap);
    }
  }

  /** `\s*:\s*(.*?)\s*E` from position `i`: the capture group on success. */
  function FieldRest(t: string, i: nat, stop: Label): Option<string>
    requires i <= |t|
  {
    var k := SkipSpaces(t, i);
    if k < |t| && t[k] == ':' then
      var q := SkipSpaces(t, k + 1);
      match LazyEnd(t, q, stop, true)
      case Some(e) => Some(t[q..e])
      case None => None
    else None
  }

  /** End of a greedy `\s*:?\s*` from `i`. */
  function OptColonEnd(t: string, i: nat): (j: nat)
    requires i <= |t|
    ensures i <= j <= |t|
  {
    var k := SkipSpaces(t, i);
    if k < |t| && t[k] == ':' then SkipSpaces(t, k + 1) else k
  }

  /** `\s*:?\s*AGE UMUR\s*:\s*(\d+)` from position `i`: the capture group on success. */
  function CountRest(t: string, i: nat): Option<string>
    requires i <= |t|
  {
    var j := OptColonEnd(t, i);
    if LitAt(t, j, AgeMarker) then
      var k := SkipSpaces(t, j + |AgeMarker|);
      if k < |t| && t[k] == ':' then
        var q := SkipSpaces(t, k + 1);
        var d := SkipDigits(t, q);
        if q < d then Some(t[q..d]) else None
      else None
    else None
  }

  /** `(.*?)E` from position `i`: the capture group on success. */
  function BlockRest(t: string, i: nat, stop: Label): Option<string>
    requires i <= |t|
  {
    match LazyEnd(t, i, stop, false)
    case Some(e) => Some(t[i..e])
    case None => None
  }

  /** The pattern after its start label, from position `i`; nothing matches past the end. */
  function MatchRest(t: string, i: nat, pat: Pattern): Option<string>
  {
    if |t| < i then None
    else
      match pat
      case Field(_, stop) => FieldRest(t, i, stop)
      case Count(_) => CountRest(t, i)
      case Block(_, stop) => BlockRest(t, i, stop)
  }

  /** The spellings of a start label in order, from index `k`: the first one that
      occurs at `p` and whose continuation matches gives the capture, as
      backtracking into `,?` or `A?` does. */
  function TryFrom(t: string, p: nat, pat: Pattern, k: nat): Option<string>
    decreases |pat.start| - k
  {
    if |pat.start| <= k then None
    else
      var a := pat.start[k];
      if LitAt(t, p, a) && MatchRest(t, p + |a|, pat).Some? then MatchRest(t, p + |a|, pat)
      else TryFrom(t, p, pat, k + 1)
  }

  /** Whether the pattern matches at position `p`, and its capture if so. */
  function TryAt(t: string, p: nat, pat: Pattern): Option<string>
  {
    TryFrom(t, p, pat, 0)
  }

  datatype Match = Match(pos: nat, capture: string)

  /** The scan of `re.search` over the outcomes of trying the pattern at each position:
      the first position, from `p` on, where it matched. */
  function FirstMatch(tries: seq<Option<string>>, p: nat): (r: Option<Match>)
    requires p <= |tries|
    ensures r.Some? ==> p <= r.value.pos < |tries| && tries[r.value.pos] == Some(r.value.capture)
    ensures r.Some? ==> forall q :: p <= q < r.value.pos ==> tries[q].None?
    ensures r.None? <==> forall q :: p <= q < |tries| ==> tries[q].None?
    decreases |tries| - p
  {
    if p == |tries| then None
    else
      match tries[p]
      case Some(c) => Some(Match(p, c))
      case None => FirstMatch(tries, p + 1)
  }

  /** `re.search(pattern, t)`: every position from 0 to `|t|` is tried, leftmost first;
      the result is the first attempt that succeeds, or nothing when none does. */
  function Search(t: string, pat: Pattern): (r: Option<Match>)
    ensures r.Some? ==> r.value.pos <= |t| && TryAt(t, r.value.pos, pat) == Some(r.value.capture)
    ensures r.Some? ==> forall q :: 0 <= q < r.value.pos ==> TryAt(t, q, pat).None?
    ensures r.None? <==> forall q :: 0 <= q <= |t| ==> TryAt(t, q, pat).None?
  {
    var tries := seq(|t| + 1, q requires 0 <= q => TryAt(t, q, pat));
    assert forall q :: 0 <= q < |tries| ==> tries[q] == TryAt(t, q, pat);
    FirstMatch(tries, 0)
  }

  /** `regex_search(pattern, text, default)`: the stripped capture of the first match,
      or `default` when the pattern matches nowhere. */
  function RegexSearch(pat: Pattern, t: string, default: string): (r: string)
    ensures Search(t, pat).None? ==> r == default
    ensures Search(t, pat).Some? ==>
      var c := Search(t, pat).value.capture;
      && Trimmed(r)
      && exists i: nat :: Spaces(c, 0, i) && i + |r| <= |c| && r == c[i..i + |r|] && Spaces(c, i + |r|, |c|)
  {
    match Search(t, pat)
    case Some(m) => Strip(m.capture)
    case None => default
  }

  // ---------------------------------------------------------------------------
  // The patterns as languages: what a match looks like, independent of the scan.
  // ---------------------------------------------------------------------------

  /** `t[i..j]` is `\s*:\s*`. */
  ghost predicate ColonGap(t: string, i: nat, j: nat) {
    exists k: nat :: i <= k < j <= |t| && Spaces(t, i, k) && t[k] == ':' && Spaces(t, k + 1, j)
  }

  /** `t[i..j]` is `\s*:?\s*`. */
  ghost predicate OptColonGap(t: string, i: nat, j: nat) {
    Spaces(t, i, j) || ColonGap(t, i, j)
  }

  /** `\s*:\s*(.*?)\s*E` can match from `i`. */
  ghost predicate FieldShaped(t: string, i: nat, stop: Label) {
    exists q: nat, e: nat, f: nat ::
      ColonGap(t, i, q) && q <= e && NoNewline(t, q, e) && Spaces(t, e, f) && LabelAt(t, f, stop)
  }

  /** `\s*:?\s*AGE UMUR\s*:\s*(\d+)` can match from `i`. */
  ghost predicate CountShaped(t: string, i: nat) {
    exists j: nat, q: nat ::
      OptColonGap(t, i, j) && LitAt(t, j, AgeMarker) && ColonGap(t, j + |AgeMarker|, q)
      && q < |t| && IsDigit(t[q])
  }

  /** `(.*?)E` can match from `i`. */
  ghost predicate BlockShaped(t: string, i: nat, stop: Label) {
    exists e: nat :: NoNewline(t, i, e) && LabelAt(t, e, stop)
  }

  /** Some way of matching the part of the pattern after the start label begins at `i`. */
  ghost predicate RestShaped(t: string, i: nat, pat: Pattern) {
    match pat
    case Field(_, stop) => FieldShaped(t, i, stop)
    case Count(_) => CountShaped(t, i)
    case Block(_, stop) => BlockShaped(t, i, stop)
  }

  /** Some spelling of the start label from index `k` on occurs at `p` and is
      followed by a match of the rest of the pattern. */
  ghost predicate ShapedFrom(t: string, p: nat, pat: Pattern, k: nat)
    decreases |pat.start| - k
  {
    k < |pat.start|
    && ((LitAt(t, p, pat.start[k]) && RestShaped(t, p + |pat.start[k]|, pat)) || ShapedFrom(t, p, pat, k + 1))
  }

  /** Some match of the whole pattern begins at `p`. */
  ghost predicate Shaped(t: string, p: nat, pat: Pattern) {
    ShapedFrom(t, p, pat, 0)
  }

  // ---------------------------------------------------------------------------
  // The scanners find a match exactly when the pattern has one.
  // ---------------------------------------------------------------------------

  /** A greedy `\s*` from `c` reaches at least as far as any other whitespace run from `c`. */
  lemma SkipSpacesIsLongest(t: string, c: nat, q: nat)
    requires Spaces(t, c, q)
    ensures q <= SkipSpaces(t, c)
  {
  }

  lemma FieldRestSound(t: string, i: nat, stop: Label)
    requires i <= |t| && FieldRest(t, i, stop).Some?
    ensures FieldShaped(t, i, stop)
  {
    var k := SkipSpaces(t, i);
    var q := SkipSpaces(t, k + 1);
    LazyEndSpec(t, q, stop, true);
    var e := LazyEnd(t, q, stop, true).value;
    var f := SkipSpaces(t, e);
    assert ColonGap(t, i, q) by {
      assert Spaces(t, i, k) && t[k] == ':' && Spaces(t, k + 1, q);
    }
    assert NoNewline(t, q, e) && Spaces(t, e, f) && LabelAt(t, f, stop);
  }

  lemma FieldRestComplete(t: string, i: nat, stop: Label)
    requires i <= |t| && WellFormed(stop) && FieldShaped(t, i, stop)
    ensures FieldRest(t, i, stop).Some?
  {
    var q: nat, e: nat, f: nat :|
      ColonGap(t, i, q) && q <= e && NoNewline(t, q, e) && Spaces(t, e, f) && LabelAt(t, f, stop);
    var c: nat :| i <= c < q <= |t| && Spaces(t, i, c) && t[c] == ':' && Spaces(t, c + 1, q);
    SkipSpacesUnique(t, i, c);
    var q' := SkipSpaces(t, c + 1);
    SkipSpacesIsLongest(t, c + 1, q);
    LabelStartsWithNonSpace(t, f, stop);
    var e' := if e < q' then q' else e;
    if e < q' {
      SkipSpacesIsLongest(t, e, q');
    }
    assert Spaces(t, e', f);
    SkipSpacesUnique(t, e', f);
    LazyEndSpec(t, q', stop, true);
    assert q' <= e' <= |t| && NoNewline(t, q', e') && Closes(t, e', stop, true);
    FieldRestFromColon(t, i, c, stop);
  }

  /** `FieldRest` succeeds once the colon is found and the lazy capture can close. */
  lemma FieldRestFromColon(t: string, i: nat, c: nat, stop: Label)
    requires i <= c < |t| && SkipSpaces(t, i) == c && t[c] == ':'
    requires LazyEnd(t, SkipSpaces(t, c + 1), stop, true).Some?
    ensures FieldRest(t, i, stop).Some?
  {
  }

  lemma FieldRestIff(t: string, i: nat, stop: Label)
    requires i <= |t| && WellFormed(stop)
    ensures FieldRest(t, i, stop).Some? <==> FieldShaped(t, i, stop)
  {
    if FieldRest(t, i, stop).Some? {
      FieldRestSound(t, i, stop);
    }
    if FieldShaped(t, i, stop) {
      FieldRestComplete(t, i, stop);
    }
  }

  /** The greedy `\s*:?\s*` ends on the only place such a gap can end before a
      character that is neither whitespace nor a colon. */
  lemma OptColonEndUnique(t: string, i: nat, j: nat)
    requires OptColonGap(t, i, j) && j < |t| && !IsSpace(t[j]) && t[j] != ':'
    ensures OptColonEnd(t, i) == j
  {
    if Spaces(t, i, j) {
      SkipSpacesUnique(t, i, j);
    } else {
      var c: nat :| i <= c < j <= |t| && Spaces(t, i, c) && t[c] == ':' && Spaces(t, c + 1, j);
      SkipSpacesUnique(t, i, c);
      SkipSpacesUnique(t, c + 1, j);
    }
  }

  lemma CountRestSound(t: string, i: nat)
    requires i <= |t| && CountRest(t, i).Some?
    ensures CountShaped(t, i)
  {
    var k := SkipSpaces(t, i);
    var j := OptColonEnd(t, i);
    assert OptColonGap(t, i, j) by {
      if k < |t| && t[k] == ':' {
        assert Spaces(t, i, k) && t[k] == ':' && Spaces(t, k + 1, j);
      }
    }
    var k' := SkipSpaces(t, j + |AgeMarker|);
    var q := SkipSpaces(t, k' + 1);
    assert ColonGap(t, j + |AgeMarker|, q) by {
      assert Spaces(t, j + |AgeMarker|, k') && t[k'] == ':' && Spaces(t, k' + 1, q);
    }
    assert LitAt(t, j, AgeMarker) && q < |t| && IsDigit(t[q]);
  }

  /** `CountRest` succeeds once the marker, its colon and a digit are in place. */
  lemma CountRestFromMarker(t: string, i: nat, j: nat, c: nat, q: nat)
    requires i <= |t| && OptColonEnd(t, i) == j && LitAt(t, j, AgeMarker)
    requires c < |t| && SkipSpaces(t, j + |AgeMarker|) == c && t[c] == ':'
    requires c + 1 <= |t| && SkipSpaces(t, c + 1) == q && q < |t| && IsDigit(t[q])
    ensures CountRest(t, i).Some?
  {
  }

  lemma CountRestComplete(t: string, i: nat)
    requires i <= |t| && CountShaped(t, i)
    ensures CountRest(t, i).Some?
  {
    var j: nat, q: nat :|
      OptColonGap(t, i, j) && LitAt(t, j, AgeMarker) && ColonGap(t, j + |AgeMarker|, q)
      && q < |t| && IsDigit(t[q]);
    CountRestWith(t, i, j, q);
  }

  /** `CountRestComplete` for given ends of the gap before the marker and of the gap
      after it. */
  lemma CountRestWith(t: string, i: nat, j: nat, q: nat)
    requires i <= |t| && OptColonGap(t, i, j) && LitAt(t, j, AgeMarker)
    requires ColonGap(t, j + |AgeMarker|, q) && q < |t| && IsDigit(t[q])
    ensures CountRest(t, i).Some?
  {
    assert OptColonEnd(t, i) == j by {
      assert SameIgnoringCase(t[j], AgeMarker[0]);
      LetterMatchIsNoSpace(t[j], AgeMarker[0]);
      OptColonEndUnique(t, i, j);
    }
    var c: nat :| j + |AgeMarker| <= c < q <= |t| && Spaces(t, j + |AgeMarker|, c) && t[c] == ':' && Spaces(t, c + 1, q);
    SkipSpacesUnique(t, j + |AgeMarker|, c);
    SkipSpacesUnique(t, c + 1, q);
    CountRestFromMarker(t, i, j, c, q);
  }

  lemma CountRestIff(t: string, i: nat)
    requires i <= |t|
    ensures CountRest(t, i).Some? <==> CountShaped(t, i)
  {
    if CountRest(t, i).Some? {
      CountRestSound(t, i);
    }
    if CountShaped(t, i) {
      CountRestComplete(t, i);
    }
  }

  lemma BlockRestIff(t: string, i: nat, stop: Label)
    requires i <= |t|
    ensures BlockRest(t, i, stop).Some? <==> BlockShaped(t, i, stop)
  {
    LazyEndSpec(t, i, stop, false);
    if BlockRest(t, i, stop).Some? {
      var e := LazyEnd(t, i, stop, false).value;
      assert NoNewline(t, i, e) && LabelAt(t, e, stop);
    }
  }

  /** The continuation scanner succeeds exactly when the rest of the pattern can match. */
  lemma MatchRestIff(t: string, i: nat, pat: Pattern)
    requires i <= |t| && WellFormedPattern(pat)
    ensures MatchRest(t, i, pat).Some? <==> RestShaped(t, i, pat)
  {
    match pat
    case Field(_, stop) => FieldRestIff(t, i, stop);
    case Count(_) => CountRestIff(t, i);
    case Block(_, stop) => BlockRestIff(t, i, stop);
  }

  /** One spelling of the start label: `TryFrom` agrees with `ShapedFrom` at `k` once it
      does at `k + 1` and the continuation scanner agrees with `RestShaped`. */
  lemma TryFromStep(t: string, p: nat, pat: Pattern, k: nat)
    requires k < |pat.start|
    requires TryFrom(t, p, pat, k + 1).Some? <==> ShapedFrom(t, p, pat, k + 1)
    requires LitAt(t, p, pat.start[k]) ==>
      (MatchRest(t, p + |pat.start[k]|, pat).Some? <==> RestShaped(t, p + |pat.start[k]|, pat))
    ensures TryFrom(t, p, pat, k).Some? <==> ShapedFrom(t, p, pat, k)
  {
  }

  lemma {:induction false} TryFromIff(t: string, p: nat, pat: Pattern, k: nat)
    requires WellFormedPattern(pat)
    ensures TryFrom(t, p, pat, k).Some? <==> ShapedFrom(t, p, pat, k)
    decreases |pat.start| - k
  {
    if k < |pat.start| {
      var a := pat.start[k];
      if LitAt(t, p, a) {
        MatchRestIff(t, p + |a|, pat);
      }
      TryFromIff(t, p, pat, k + 1);
      TryFromStep(t, p, pat, k);
    }
  }

  /** The pattern matches at `p` exactly when some match of it begins there. */
  lemma TryAtIff(t: string, p: nat, pat: Pattern)
    requires WellFormedPattern(pat)
    ensures TryAt(t, p, pat).Some? <==> Shaped(t, p, pat)
  {
    TryFromIff(t, p, pat, 0);
  }

  /** `re.search` semantics: no match anywhere gives nothing; otherwise the result
      sits at the leftmost position where a match begins. */
  lemma SearchIsLeftmost(t: string, pat: Pattern)
    requires WellFormedPattern(pat)
    ensures Search(t, pat).None? <==> forall p :: 0 <= p <= |t| ==> !Shaped(t, p, pat)
    ensures Search(t, pat).Some? ==>
      var m := Search(t, pat).value;
      && m.pos <= |t| && Shaped(t, m.pos, pat) && TryAt(t, m.pos, pat) == Some(m.capture)
      && forall p :: 0 <= p < m.pos ==> !Shaped(t, p, pat)
  {
    var tries := seq(|t| + 1, q requires 0 <= q => TryAt(t, q, pat));
    forall p | 0 <= p <= |t|
      ensures tries[p] == TryAt(t, p, pat) && (tries[p].Some? <==> Shaped(t, p, pat))
    {
      TryAtIff(t, p, pat);
    }
  }

  // ---------------------------------------------------------------------------
  // What a capture looks like.
  // ---------------------------------------------------------------------------

  /** No spelling of `l` starts anywhere inside `c`. */
  predicate NoLabelIn(c: string, l: Label) {
    forall x :: 0 <= x < |c| ==> !LabelAt(c, x, l)
  }

  /** The shape of the capture group of each pattern: a field value is already
      stripped, crosses no line break and holds no end label; a count is a
      non-empty run of digits; a block crosses no line break and holds no end label. */
  predicate CaptureFits(c: string, pat: Pattern) {
    match pat
    case Field(_, stop) => Trimmed(c) && NoNewline(c, 0, |c|) && NoLabelIn(c, stop)
    case Count(_) => |c| > 0 && forall x :: 0 <= x < |c| ==> IsDigit(c[x])
    case Block(_, stop) => NoNewline(c, 0, |c|) && NoLabelIn(c, stop)
  }

  /** A literal found inside `t[q..e]` is found at the same place in `t`. */
  lemma LitAtSlice(t: string, q: nat, e: nat, x: nat, s: string)
    requires q <= e <= |t|
    ensures LitAt(t[q..e], x, s) ==> LitAt(t, q + x, s)
  {
    if LitAt(t[q..e], x, s) {
      forall i | 0 <= i < |s|
        ensures SameIgnoringCase(t[q + x + i], s[i])
      {
        assert t[q..e][x + i] == t[q + x + i];
      }
    }
  }

  lemma {:induction false} LabelAtSlice(t: string, q: nat, e: nat, x: nat, l: Label)
    requires q <= e <= |t|
    ensures LabelAt(t[q..e], x, l) ==> LabelAt(t, q + x, l)
    decreases |l|
  {
    if |l| > 0 {
      LitAtSlice(t, q, e, x, l[0]);
      LabelAtSlice(t, q, e, x, l[1..]);
    }
  }

  /** An end label inside a Field capture would close the capture where it starts. */
  lemma LabelInsideCloses(t: string, q: nat, e: nat, x: nat, stop: Label)
    requires q + x <= e <= |t| && WellFormed(stop)
    ensures LabelAt(t[q..e], x, stop) ==> Closes(t, q + x, stop, true)
  {
    LabelAtSlice(t, q, e, x, stop);
    if LabelAt(t, q + x, stop) {
      LabelStartsWithNonSpace(t, q + x, stop);
      SkipSpacesUnique(t, q + x, q + x);
    }
  }

  /** Whitespace just before `e` is part of the `\s*` that follows the capture. */
  lemma SpaceBeforeCloses(t: string, e: nat, stop: Label)
    requires 0 < e <= |t|
    ensures IsSpace(t[e - 1]) ==> Closes(t, e - 1, stop, true) == Closes(t, e, stop, true)
  {
    if IsSpace(t[e - 1]) {
      SkipSpacesUnique(t, e - 1, SkipSpaces(t, e));
    }
  }

  lemma FieldCapture(t: string, i: nat, stop: Label)
    requires i <= |t| && WellFormed(stop) && FieldRest(t, i, stop).Some?
    ensures CaptureFits(FieldRest(t, i, stop).value, Field([], stop))
  {
    var k := SkipSpaces(t, i);
    var q := SkipSpaces(t, k + 1);
    LazyEndSpec(t, q, stop, true);
    var e := LazyEnd(t, q, stop, true).value;
    var c := t[q..e];
    forall x | 0 <= x < |c|
      ensures !LabelAt(c, x, stop)
    {
      LabelInsideCloses(t, q, e, x, stop);
    }
    if 0 < |c| {
      SpaceBeforeCloses(t, e, stop);
      assert !IsSpace(c[|c| - 1]);
    }
  }

  lemma BlockCapture(t: string, i: nat, stop: Label)
    requires i <= |t| && BlockRest(t, i, stop).Some?
    ensures CaptureFits(BlockRest(t, i, stop).value, Block([], stop))
  {
    LazyEndSpec(t, i, stop, false);
    var e := LazyEnd(t, i, stop, false).value;
    forall x | 0 <= x < e - i
      ensures !LabelAt(t[i..e], x, stop)
    {
      LabelAtSlice(t, i, e, x, stop);
      assert !Closes(t, i + x, stop, false);
    }
  }

  lemma MatchRestCapture(t: string, i: nat, pat: Pattern)
    requires WellFormedPattern(pat) && MatchRest(t, i, pat).Some?
    ensures CaptureFits(MatchRest(t, i, pat).value, pat)
  {
    match pat
    case Field(_, stop) => FieldCapture(t, i, stop);
    case Count(_) =>
    case Block(_, stop) => BlockCapture(t, i, stop);
  }

  /** The capture of a match is the capture of the continuation scanner at some position. */
  lemma {:induction false} TryFromSource(t: string, p: nat, pat: Pattern, k: nat)
    requires TryFrom(t, p, pat, k).Some?
    ensures exists i: nat :: MatchRest(t, i, pat) == TryFrom(t, p, pat, k)
    decreases |pat.start| - k
  {
    var a := pat.start[k];
    if LitAt(t, p, a) && MatchRest(t, p + |a|, pat).Some? {
      assert MatchRest(t, p + |a|, pat) == TryFrom(t, p, pat, k);
    } else {
      TryFromSource(t, p, pat, k + 1);
    }
  }

  /** Every capture `re.search` returns has the shape its pattern promises. */
  lemma SearchCapture(t: string, pat: Pattern)
    requires WellFormedPattern(pat) && Search(t, pat).Some?
    ensures CaptureFits(Search(t, pat).value.capture, pat)
  {
    var tries := seq(|t| + 1, q requires 0 <= q => TryAt(t, q, pat));
    var m := Search(t, pat).value;
    assert tries[m.pos] == TryAt(t, m.pos, pat);
    TryFromSource(t, m.pos, pat, 0);
    var i: nat :| MatchRest(t, i, pat) == Some(m.capture);
    MatchRestCapture(t, i, pat);
  }

  // ---------------------------------------------------------------------------
  // Reading a value back out of a line built around it.
  // ---------------------------------------------------------------------------

  /** The lazy end is determined by the closing conditions: the first closing place
      reachable without crossing a newline. */
  lemma {:induction false} LazyEndIs(t: string, q: nat, e: nat, stop: Label, gap: bool)
    requires q <= e <= |t| && NoNewline(t, q, e) && Closes(t, e, stop, gap)
    requires forall k :: q <= k < e ==> !Closes(t, k, stop, gap)
    ensures LazyEnd(t, q, stop, gap) == Some(e)
    decreases e - q
  {
    if q < e {
      assert !Closes(t, q, stop, gap) && t[q] != '\n';
      LazyEndIs(t, q + 1, e, stop, gap);
    }
  }

  /** No spelling from index `k` on occurs at `p`, so nothing matches there. */
  lemma {:induction false} TryFromNone(t: string, p: nat, pat: Pattern, k: nat)
    requires forall j :: k <= j < |pat.start| ==> !LitAt(t, p, pat.start[j])
    ensures TryFrom(t, p, pat, k).None?
    decreases |pat.start| - k
  {
    if k < |pat.start| {
      TryFromNone(t, p, pat, k + 1);
    }
  }

  /** The first spelling that occurs at `p` from index `k` on is the one the match
      uses when its continuation matches. */
  lemma {:induction false} TryFromPicks(t: string, p: nat, pat: Pattern, k: nat, j: nat)
    requires k <= j < |pat.start| && LitAt(t, p, pat.start[j])
    requires MatchRest(t, p + |pat.start[j]|, pat).Some?
    requires forall j' :: k <= j' < j && LitAt(t, p, pat.start[j']) ==> pat.start[j'] == pat.start[j]
    ensures TryFrom(t, p, pat, k) == MatchRest(t, p + |pat.start[j]|, pat)
    decreases j - k
  {
    if k == j {
      TryFromTakes(t, p, pat, j);
    } else {
      TryFromBefore(t, p, pat, k, j);
      TryFromPicks(t, p, pat, k + 1, j);
    }
  }

  /** Before the spelling `j`, an attempt either passes over its spelling or gives the
      same result as spelling `j`. */
  lemma TryFromBefore(t: string, p: nat, pat: Pattern, k: nat, j: nat)
    requires k < j < |pat.start| && MatchRest(t, p + |pat.start[j]|, pat).Some?
    requires forall j' :: k <= j' < j && LitAt(t, p, pat.start[j']) ==> pat.start[j'] == pat.start[j]
    ensures TryFrom(t, p, pat, k) == TryFrom(t, p, pat, k + 1)
         || TryFrom(t, p, pat, k) == MatchRest(t, p + |pat.start[j]|, pat)
  {
    if LitAt(t, p, pat.start[k]) {
      assert pat.start[k] == pat.start[j];
      TryFromTakes(t, p, pat, k);
    } else {
      TryFromSkips(t, p, pat, k);
    }
  }

  /** A spelling that occurs and whose continuation matches decides the attempt. */
  lemma TryFromTakes(t: string, p: nat, pat: Pattern, k: nat)
    requires k < |pat.start| && LitAt(t, p, pat.start[k])
    requires MatchRest(t, p + |pat.start[k]|, pat).Some?
    ensures TryFrom(t, p, pat, k) == MatchRest(t, p + |pat.start[k]|, pat)
  {
  }

  /** A spelling that does not occur is passed over. */
  lemma TryFromSkips(t: string, p: nat, pat: Pattern, k: nat)
    requires k < |pat.start| && !LitAt(t, p, pat.start[k])
    ensures TryFrom(t, p, pat, k) == TryFrom(t, p, pat, k + 1)
  {
  }

  /** The pattern matches at `p` through the only spelling of its start label there
      whose continuation matches. */
  lemma TryAtPicks(t: string, p: nat, pat: Pattern, a: string, c: string)
    requires a in pat.start && LitAt(t, p, a) && MatchRest(t, p + |a|, pat) == Some(c)
    requires forall a' :: a' in pat.start && LitAt(t, p, a') ==> a' == a
    ensures TryAt(t, p, pat) == Some(c)
  {
    var j :| 0 <= j < |pat.start| && pat.start[j] == a;
    TryFromPicks(t, p, pat, 0, j);
  }

  /** The scan stops at the first position where the pattern matched. */
  lemma FirstMatchFinds(tries: seq<Option<string>>, pos: nat, c: string)
    requires pos < |tries| && tries[pos] == Some(c)
    requires forall p :: 0 <= p < pos ==> tries[p].None?
    ensures FirstMatch(tries, 0) == Some(Match(pos, c))
  {
  }

  /** `re.search` reports the first position where the pattern matches. */
  lemma SearchFinds(t: string, pat: Pattern, pos: nat, c: string)
    requires pos <= |t| && TryAt(t, pos, pat) == Some(c)
    requires forall p :: 0 <= p < pos ==> TryAt(t, p, pat).None?
    ensures Search(t, pat) == Some(Match(pos, c))
  {
    var tries := seq(|t| + 1, q requires 0 <= q => TryAt(t, q, pat));
    forall p | 0 <= p < pos
      ensures tries[p].None?
    {
      assert tries[p] == TryAt(t, p, pat);
    }
    FirstMatchFinds(tries, pos, c);
  }

  /** `FieldRest` from `i` once the colon, the start of the capture and its lazy end are known. */
  lemma FieldRestIs(t: string, i: nat, c: nat, q: nat, e: nat, stop: Label, v: string)
    requires i <= c < |t| && SkipSpaces(t, i) == c && t[c] == ':'
    requires SkipSpaces(t, c + 1) == q && LazyEnd(t, q, stop, true) == Some(e)
    requires t[q..e] == v
    ensures FieldRest(t, i, stop) == Some(v)
  {
  }

  /** Inside a stripped value that holds no end label, the capture cannot close. */
  lemma ValueDoesNotClose(t: string, q: nat, e: nat, stop: Label)
    requires q < e <= |t| && !IsSpace(t[e - 1])
    requires forall y :: q <= y < e ==> !LabelAt(t, y, stop)
    ensures forall k :: q <= k < e ==> !Closes(t, k, stop, true)
  {
    forall k | q <= k < e
      ensures !Closes(t, k, stop, true)
    {
      var y := SkipSpaces(t, k);
      assert y < e by {
        assert !IsSpace(t[e - 1]);
      }
    }
  }

  /** The characters of a line laid out as ` : <value> <end label>...` from `i`. */
  lemma FieldLineChars(t: string, i: nat, v: string, b: string, post: string)
    requires i <= |t| && t[i..] == " : " + (v + (" " + (b + post)))
    ensures i + 4 + |v| + |b| <= |t|
    ensures t[i] == ' ' && t[i + 1] == ':' && t[i + 2] == ' ' && t[i + 3 + |v|] == ' '
    ensures t[i + 3..i + 3 + |v|] == v
    ensures LitAt(t, i + 4 + |v|, b)
  {
    var u := t[i..];
    assert forall m :: 0 <= m < |u| ==> t[i + m] == u[m];
    assert forall y :: 0 <= y < |b| ==> t[i + 4 + |v| + y] == b[y];
    assert t[i + 3..i + 3 + |v|] == u[3..3 + |v|];
  }

  /** `FieldRestReads` for an empty value: the capture closes where the end label starts. */
  lemma FieldRestReadsEmpty(t: string, i: nat, b: string, post: string, stop: Label)
    requires WellFormed(stop) && b in stop
    requires i <= |t| && t[i..] == " : " + ([] + (" " + (b + post)))
    ensures FieldRest(t, i, stop) == Some([])
  {
    FieldLineChars(t, i, [], b, post);
    var f := i + 4;
    LabelAtIff(t, f, stop);
    LabelStartsWithNonSpace(t, f, stop);
    SkipSpacesUnique(t, i, i + 1);
    SkipSpacesUnique(t, i + 2, f);
    SkipSpacesUnique(t, f, f);
    LazyEndIs(t, f, f, stop, true);
    assert t[f..f] == [];
    FieldRestIs(t, i, i + 1, f, f, stop, []);
  }

  /** On a line laid out as ` : <value> <end label>...`, the lazy capture that starts at
      a non-empty value ends right after it. */
  lemma ValueEndsCapture(t: string, i: nat, v: string, b: string, post: string, stop: Label)
    requires WellFormed(stop) && b in stop
    requires i <= |t| && t[i..] == " : " + (v + (" " + (b + post)))
    requires |v| > 0 && Trimmed(v) && NoNewline(v, 0, |v|)
    requires forall y :: i + 3 <= y < i + 3 + |v| ==> !LabelAt(t, y, stop)
    ensures i + 3 + |v| <= |t| && LazyEnd(t, i + 3, stop, true) == Some(i + 3 + |v|)
  {
    FieldLineChars(t, i, v, b, post);
    var q := i + 3;
    var e := q + |v|;
    var f := e + 1;
    assert t[e - 1] == v[|v| - 1];
    LabelAtIff(t, f, stop);
    LabelStartsWithNonSpace(t, f, stop);
    SkipSpacesUnique(t, e, f);
    ValueDoesNotClose(t, q, e, stop);
    assert NoNewline(t, q, e) by {
      assert forall k :: q <= k < e ==> t[k] == v[k - q];
    }
    LazyEndIs(t, q, e, stop, true);
  }

  /** `FieldRestReads` for a non-empty value: the capture closes right after it. */
  lemma FieldRestReadsValue(t: string, i: nat, v: string, b: string, post: string, stop: Label)
    requires WellFormed(stop) && b in stop
    requires i <= |t| && t[i..] == " : " + (v + (" " + (b + post)))
    requires |v| > 0 && Trimmed(v) && NoNewline(v, 0, |v|)
    requires forall y :: i + 3 <= y < i + 3 + |v| ==> !LabelAt(t, y, stop)
    ensures FieldRest(t, i, stop) == Some(v)
  {
    FieldLineSkips(t, i, v, b, post);
    ValueEndsCapture(t, i, v, b, post, stop);
    FieldLineIs(t, i, v, stop);
  }

  /** `FieldRest` on a line laid out as ` : <value>...` once the capture is known to
      close right after the value. */
  lemma FieldLineIs(t: string, i: nat, v: string, stop: Label)
    requires i + 3 + |v| <= |t| && t[i + 1] == ':' && t[i + 3..i + 3 + |v|] == v
    requires SkipSpaces(t, i) == i + 1 && SkipSpaces(t, i + 2) == i + 3
    requires LazyEnd(t, i + 3, stop, true) == Some(i + 3 + |v|)
    ensures FieldRest(t, i, stop) == Some(v)
  {
  }

  /** On a line laid out as ` : <value> <end label>...` with a non-empty stripped
      value, `\s*` stops at the colon and again at the value. */
  lemma FieldLineSkips(t: string, i: nat, v: string, b: string, post: string)
    requires i <= |t| && t[i..] == " : " + (v + (" " + (b + post)))
    requires |v| > 0 && Trimmed(v)
    ensures i + 3 + |v| <= |t| && t[i + 1] == ':' && t[i + 3..i + 3 + |v|] == v
    ensures SkipSpaces(t, i) == i + 1 && SkipSpaces(t, i + 2) == i + 3
  {
    FieldLineChars(t, i, v, b, post);
    SkipSpacesUnique(t, i, i + 1);
    assert t[i + 3] == v[0];
    SkipSpacesUnique(t, i + 2, i + 3);
  }

  /** The Field scanner reads back the value of a line laid out as
      ` : <value> <end label>...`, provided the value is already stripped, stays on
      one line and contains no end label. */
  lemma FieldRestReads(t: string, i: nat, v: string, b: string, post: string, stop: Label)
    requires WellFormed(stop) && b in stop
    requires i <= |t| && t[i..] == " : " + (v + (" " + (b + post)))
    requires Trimmed(v) && NoNewline(v, 0, |v|)
    requires forall y :: i + 3 <= y < i + 3 + |v| ==> !LabelAt(t, y, stop)
    ensures FieldRest(t, i, stop) == Some(v)
  {
    if |v| == 0 {
      FieldRestReadsEmpty(t, i, b, post, stop);
    } else {
      FieldRestReadsValue(t, i, v, b, post, stop);
    }
  }

  /** A Field pattern matches at `p` when the only spelling of its start label there is
      followed by a line the Field scanner reads back. */
  lemma FieldMatchAt(t: string, p: nat, a: string, v: string, b: string, post: string,
                     start: Label, stop: Label)
    requires WellFormed(stop) && a in start && b in stop
    requires p <= |t| && t[p..] == a + (" : " + (v + (" " + (b + post))))
    requires forall a' :: a' in start && LitAt(t, p, a') ==> a' == a
    requires Trimmed(v) && NoNewline(v, 0, |v|)
    requires forall y :: p + |a| + 3 <= y < p + |a| + 3 + |v| ==> !LabelAt(t, y, stop)
    ensures TryAt(t, p, Field(start, stop)) == Some(v)
  {
    var i := p + |a|;
    SuffixSplit(t, p, a, " : " + (v + (" " + (b + post))));
    assert MatchRest(t, i, Field(start, stop)) == Some(v) by {
      FieldRestReads(t, i, v, b, post, stop);
      FieldMatchRestIs(t, i, start, stop, v);
    }
    assert LitAt(t, p, a) by {
      SliceChars(t, p, a);
    }
    TryAtPicks(t, p, Field(start, stop), a, v);
  }

  /** The continuation of a Field pattern is the Field scanner. */
  lemma FieldMatchRestIs(t: string, i: nat, start: Label, stop: Label, v: string)
    requires i <= |t| && FieldRest(t, i, stop) == Some(v)
    ensures MatchRest(t, i, Field(start, stop)) == Some(v)
  {
  }

  /** Where no spelling of the start label occurs, the pattern does not match. */
  lemma NoMatchWithoutLabel(t: string, pat: Pattern, n: nat)
    requires forall p :: 0 <= p < n ==> !LabelAt(t, p, pat.start)
    ensures forall p :: 0 <= p < n ==> TryAt(t, p, pat).None?
  {
    forall p | 0 <= p < n
      ensures TryAt(t, p, pat).None?
    {
      LabelAtIff(t, p, pat.start);
      TryFromNone(t, p, pat, 0);
    }
  }

  /** `regex_search` returns the stripped capture of the match `re.search` found. */
  lemma RegexSearchOf(pat: Pattern, t: string, default: string, m: Match)
    requires Search(t, pat) == Some(m)
    ensures RegexSearch(pat, t, default) == Strip(m.capture)
  {
  }

  /** Round trip of `regex_search` on a Field pattern: in a text where the start label
      first appears as `<label> : <value> <end label>`, the search returns the value,
      provided the value is stripped, stays on one line and contains no end label. */
  lemma FieldRoundTrip(t: string, pre: string, a: string, v: string, b: string, post: string,
                       start: Label, stop: Label, default: string)
    requires WellFormed(stop) && a in start && b in stop
    requires t == pre + (a + (" : " + (v + (" " + (b + post)))))
    requires forall p :: 0 <= p < |pre| ==> !LabelAt(t, p, start)
    requires forall a' :: a' in start && LitAt(t, |pre|, a') ==> a' == a
    requires Trimmed(v) && NoNewline(v, 0, |v|)
    requires forall y :: |pre| + |a| + 3 <= y < |pre| + |a| + 3 + |v| ==> !LabelAt(t, y, stop)
    ensures RegexSearch(Field(start, stop), t, default) == v
  {
    var pat := Field(start, stop);
    assert t[|pre|..] == a + (" : " + (v + (" " + (b + post))));
    FieldMatchAt(t, |pre|, a, v, b, post, start, stop);
    NoMatchWithoutLabel(t, pat, |pre|);
    SearchFinds(t, pat, |pre|, v);
    RegexSearchOf(pat, t, default, Match(|pre|, v));
    StripTrimmed(v);
  }

  /** After a one-line capture `c` that no end label starts in, the lazy `(.*?)` of a
      Block pattern ends right before the end label that follows `c`. */
  lemma BlockEndsAt(t: string, i: nat, c: string, b: string, post: string, stop: Label)
    requires b in stop
    requires i <= |t| && t[i..] == c + (b + post)
    requires NoNewline(c, 0, |c|)
    requires forall y :: i <= y < i + |c| ==> !LabelAt(t, y, stop)
    ensures i + |c| <= |t| && t[i..i + |c|] == c && LazyEnd(t, i, stop, false) == Some(i + |c|)
  {
    SuffixSplit(t, i, c, b + post);
    var e := i + |c|;
    SuffixSplit(t, e, b, post);
    SliceChars(t, i, c);
    SliceChars(t, e, b);
    assert LitAt(t, e, b);
    LabelAtIff(t, e, stop);
    assert NoNewline(t, i, e) by {
      forall k | i <= k < e
        ensures t[k] != '\n'
      {
        assert t[i + (k - i)] == c[k - i];
      }
    }
    LazyEndIs(t, i, e, stop, false);
  }

  /** The Block scanner returns the text up to the lazy end. */
  lemma BlockRestIs(t: string, i: nat, e: nat, start: Label, stop: Label, c: string)
    requires i <= e <= |t| && LazyEnd(t, i, stop, false) == Some(e) && t[i..e] == c
    ensures MatchRest(t, i, Block(start, stop)) == Some(c)
  {
  }

  /** A Block pattern matches at `p` when the only spelling of its start label there is
      followed by a one-line capture `c` and an end label that starts nowhere earlier. */
  lemma BlockMatchAt(t: string, p: nat, a: string, c: string, b: string, post: string,
                     start: Label, stop: Label)
    requires a in start && b in stop
    requires p <= |t| && t[p..] == a + (c + (b + post))
    requires forall a' :: a' in start && LitAt(t, p, a') ==> a' == a
    requires NoNewline(c, 0, |c|)
    requires forall y :: p + |a| <= y < p + |a| + |c| ==> !LabelAt(t, y, stop)
    ensures TryAt(t, p, Block(start, stop)) == Some(c)
  {
    var i := p + |a|;
    SuffixSplit(t, p, a, c + (b + post));
    assert MatchRest(t, i, Block(start, stop)) == Some(c) by {
      BlockEndsAt(t, i, c, b, post, stop);
      BlockRestIs(t, i, i + |c|, start, stop, c);
    }
    assert LitAt(t, p, a) by {
      SliceChars(t, p, a);
    }
    TryAtPicks(t, p, Block(start, stop), a, c);
  }

  /** Round trip of `regex_search` on a Block pattern: in a text where the start label
      first appears as `<label><capture><end label>`, the search returns the stripped
      capture, provided the capture stays on one line and no end label starts in it. */
  lemma BlockRoundTrip(t: string, pre: string, a: string, c: string, b: string, post: string,
                       start: Label, stop: Label, default: string)
    requires a in start && b in stop
    requires t == pre + (a + (c + (b + post)))
    requires forall p :: 0 <= p < |pre| ==> !LabelAt(t, p, start)
    requires forall a' :: a' in start && LitAt(t, |pre|, a') ==> a' == a
    requires NoNewline(c, 0, |c|)
    requires forall y :: |pre| + |a| <= y < |pre| + |a| + |c| ==> !LabelAt(t, y, stop)
    ensures RegexSearch(Block(start, stop), t, default) == Strip(c)
  {
    var pat := Block(start, stop);
    assert t[|pre|..] == a + (c + (b + post));
    BlockMatchAt(t, |pre|, a, c, b, post, start, stop);
    NoMatchWithoutLabel(t, pat, |pre|);
    SearchFinds(t, pat, |pre|, c);
    RegexSearchOf(pat, t, default, Match(|pre|, c));
  }

  // ---------------------------------------------------------------------------
  // What `regex_search` returns.
  // ---------------------------------------------------------------------------

  /** When the pattern matches at no position, `re.search` finds nothing. */
  lemma NoTryNoSearch(t: string, pat: Pattern)
    requires forall p :: 0 <= p <= |t| ==> TryAt(t, p, pat).None?
    ensures Search(t, pat).None?
  {
    var tries := seq(|t| + 1, q requires 0 <= q => TryAt(t, q, pat));
    forall p | 0 <= p < |tries|
      ensures tries[p].None?
    {
      assert tries[p] == TryAt(t, p, pat);
    }
  }

  /** `regex_search` returns `default` when no spelling of the start label occurs. */
  lemma NoStartLabelGivesDefault(pat: Pattern, t: string, default: string)
    requires forall p :: 0 <= p <= |t| ==> !LabelAt(t, p, pat.start)
    ensures RegexSearch(pat, t, default) == default
  {
    NoMatchWithoutLabel(t, pat, |t| + 1);
    NoTryNoSearch(t, pat);
  }

  /** A Block match needs its end label somewhere in the text. */
  lemma {:induction false} TryFromNeedsEnd(t: string, p: nat, pat: Pattern, k: nat)
    requires pat.Block?
    ensures TryFrom(t, p, pat, k).Some? ==> exists e :: 0 <= e <= |t| && LabelAt(t, e, pat.stop)
    decreases |pat.start| - k
  {
    if TryFrom(t, p, pat, k).Some? {
      var a := pat.start[k];
      if LitAt(t, p, a) && MatchRest(t, p + |a|, pat).Some? {
        LazyEndSpec(t, p + |a|, pat.stop, false);
        var e := LazyEnd(t, p + |a|, pat.stop, false).value;
        assert LabelAt(t, e, pat.stop);
      } else {
        TryFromNeedsEnd(t, p, pat, k + 1);
      }
    }
  }

  /** `regex_search` on a Block pattern returns `default` when the end label occurs nowhere. */
  lemma NoEndLabelGivesDefault(start: Label, stop: Label, t: string, default: string)
    requires forall p :: 0 <= p <= |t| ==> !LabelAt(t, p, stop)
    ensures RegexSearch(Block(start, stop), t, default) == default
  {
    var pat := Block(start, stop);
    forall p | 0 <= p <= |t|
      ensures TryAt(t, p, pat).None?
    {
      TryFromNeedsEnd(t, p, pat, 0);
    }
    NoTryNoSearch(t, pat);
  }

  /** On a match, a Field or Count pattern returns its capture as it is: the capture
      of either is already stripped, so `.strip()` changes nothing. */
  lemma RegexSearchFound(pat: Pattern, t: string, default: string)
    requires WellFormedPattern(pat) && !pat.Block? && Search(t, pat).Some?
    ensures RegexSearch(pat, t, default) == Search(t, pat).value.capture
    ensures CaptureFits(RegexSearch(pat, t, default), pat)
  {
    var m := Search(t, pat).value;
    SearchCapture(t, pat);
    if pat.Count? && |m.capture| > 0 {
      assert IsDigit(m.capture[0]) && IsDigit(m.capture[|m.capture| - 1]);
    }
    RegexSearchOf(pat, t, default, m);
    StripTrimmed(m.capture);
  }

  /** With the empty default, a Count pattern's result is non-empty exactly when the
      pattern matches somewhere: a count capture is at least one digit. */
  lemma CountFoundIff(start: Label, t: string)
    requires WellFormed(start)
    ensures RegexSearch(Count(start), t, "") != "" <==> exists p :: 0 <= p <= |t| && Shaped(t, p, Count(start))
  {
    SearchIsLeftmost(t, Count(start));
    if Search(t, Count(start)).Some? {
      RegexSearchFound(Count(start), t, "");
    }
  }
}
