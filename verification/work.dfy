/**
 * The work-experience section: every `(INDONESIAN|SINGAPORE) yyyy Y - yyyy Y`
 * period found in the work block, one display line per period, the lines joined
 * with `<br>`, and the Ex-Singapore flag. This search is case-sensitive, unlike
 * the label searches.
 */
module Work {
  import opened Wrappers
  import opened Chars
  import opened Numbers

  datatype Country = Indonesian | Singapore

  /** A period as the regex captures it: the country word and the two four-digit years,
      kept as text. */
  datatype Entry = Entry(country: Country, start: string, end: string)

  /** Four ASCII digits, what `\d{4}` captures. */
  predicate Year(s: string) {
    |s| == 4 && AllDigits(s)
  }

  predicate ValidEntry(e: Entry) {
    Year(e.start) && Year(e.end)
  }

  /** The word the regex alternative matches, in capitals. */
  function CountryWord(c: Country): string {
    match c
    case Indonesian => "INDONESIAN"
    case Singapore => "SINGAPORE"
  }

  /** `country.title()` of the captured word. */
  function CountryTitle(c: Country): string {
    match c
    case Indonesian => "Indonesian"
    case Singapore => "Singapore"
  }

  /** `w` occurs at `p`, character for character. */
  predicate ExactAt(t: string, p: nat, w: string) {
    p + |w| <= |t| && t[p..p + |w|] == w
  }

  /** Four digits start at `p`. */
  predicate YearAt(t: string, p: nat) {
    p + 4 <= |t| && Year(t[p..p + 4])
  }

  /** The alternative `(INDONESIAN|SINGAPORE)` at `p`, tried in that order. */
  function CountryAt(t: string, p: nat): (r: Option<Country>)
    ensures r.Some? ==> ExactAt(t, p, CountryWord(r.value))
  {
    if ExactAt(t, p, "INDONESIAN") then Some(Indonesian)
    else if ExactAt(t, p, "SINGAPORE") then Some(Singapore)
    else None
  }

  /** `\s*Y` from `i`: the position after the `Y`. */
  function YearMarkEnd(t: string, i: nat): Option<nat>
    requires i <= |t|
  {
    var k := SkipSpaces(t, i);
    if k < |t| && t[k] == 'Y' then Some(k + 1) else None
  }

  /** `\s*-\s*(\d{4})\s*Y` from `k`: the second year and the end of the match. */
  function SecondYearAt(t: string, k: nat): (r: Option<(string, nat)>)
    requires k <= |t|
    ensures r.Some? ==> Year(r.value.0) && k < r.value.1 <= |t|
  {
    var d := SkipSpaces(t, k);
    if d < |t| && t[d] == '-' then
      var f := SkipSpaces(t, d + 1);
      if YearAt(t, f) then
        match YearMarkEnd(t, f + 4)
        case None => None
        case Some(g) => Some((t[f..f + 4], g))
      else None
    else None
  }

  /** `\s+(\d{4})\s*Y` from `i`: the first year and the position after the `Y`. */
  function FirstYearAt(t: string, i: nat): (r: Option<(string, nat)>)
    requires i <= |t|
    ensures r.Some? ==> Year(r.value.0) && i < r.value.1 <= |t|
  {
    var j := SkipSpaces(t, i);
    if i < j && YearAt(t, j) then
      match YearMarkEnd(t, j + 4)
      case None => None
      case Some(k) => Some((t[j..j + 4], k))
    else None
  }

  /** `(INDONESIAN|SINGAPORE)\s+(\d{4})\s*Y\s*-\s*(\d{4})\s*Y` at `p`: the groups and the
      end of the match. Every quantifier stops before a character it cannot give back
      (a digit, `Y` or `-` is never whitespace), so the greedy reading is the only one. */
  function EntryAt(t: string, p: nat): (r: Option<(Entry, nat)>)
    requires p <= |t|
    ensures r.Some? ==> p < r.value.1 <= |t| && ValidEntry(r.value.0)
  {
    match CountryAt(t, p)
    case None => None
    case Some(c) =>
      match FirstYearAt(t, p + |CountryWord(c)|)
      case None => None
      case Some((start, k)) =>
        match SecondYearAt(t, k)
        case None => None
        case Some((end, g)) => Some((Entry(c, start, end), g))
  }

  /** `re.findall` from `p`: the periods of the non-overlapping matches, left to right,
      each search resuming where the previous match ended. */
  function FindAll(t: string, p: nat): (es: seq<Entry>)
    requires p <= |t|
    ensures forall i :: 0 <= i < |es| ==> ValidEntry(es[i])
    decreases |t| - p
  {
    if p == |t| then []
    else
      match EntryAt(t, p)
      case Some((e, q)) => [e] + FindAll(t, q)
      case None => FindAll(t, p + 1)
  }

  /** `int(end) - int(start)`. Both captures are digit strings, which `int()` always
      accepts, so the `"?"` fallback never applies. */
  function Duration(e: Entry): (years: int)
    requires ValidEntry(e)
    ensures -10000 < years < 10000
  {
    DigitsValue(e.end) - DigitsValue(e.start)
  }

  /** `f"{start}-{end} ({years} yrs) - {country.title()}"`. A display line contains no
      `<`, so it cannot contain the `<br>` separator the lines are joined with. */
  function Format(e: Entry): (line: string)
    requires ValidEntry(e)
    ensures NoAngle(line)
  {
    var y := IntToString(Duration(e));
    var title := CountryTitle(e.country);
    assert NoAngle(y) by {
      assert forall i :: 0 <= i < |y| ==> y[i] == '-' || IsDigit(y[i]);
    }
    assert NoAngle(title);
    NoAngleConcat(YearsTail, title);
    NoAngleConcat(y, YearsTail + title);
    NoAngleConcat(" (", y + (YearsTail + title));
    NoAngleConcat(e.end, " (" + (y + (YearsTail + title)));
    NoAngleConcat("-", e.end + (" (" + (y + (YearsTail + title))));
    NoAngleConcat(e.start, "-" + (e.end + (" (" + (y + (YearsTail + title)))));
    e.start + ("-" + (e.end + (" (" + (y + (YearsTail + title)))))
  }

  function FormatAll(es: seq<Entry>): (lines: seq<string>)
    requires forall i :: 0 <= i < |es| ==> ValidEntry(es[i])
    ensures |lines| == |es|
  {
    if |es| == 0 then [] else [Format(es[0])] + FormatAll(es[1..])
  }

  const Separator: string := "<br>"

  /** The number of characters in all of `lines` together. */
  function TotalLength(lines: seq<string>): nat {
    if |lines| == 0 then 0 else |lines[0]| + TotalLength(lines[1..])
  }

  /** `"<br>".join(lines)`: the lines with one separator between each two neighbours,
      starting with the first line. */
  function Join(lines: seq<string>): (s: string)
    ensures |lines| == 0 ==> s == ""
    ensures |lines| > 0 ==> |s| == TotalLength(lines) + |Separator| * (|lines| - 1)
    ensures |lines| > 0 ==> s[..|lines[0]|] == lines[0]
  {
    if |lines| == 0 then ""
    else if |lines| == 1 then lines[0]
    else lines[0] + (Separator + Join(lines[1..]))
  }

  /** The `Work Experience` value: the joined lines, or `"Not Found"` when there are
      none. A display line starts with a digit, so a joined value is never `"Not Found"`. */
  function WorkExperience(es: seq<Entry>): (r: string)
    requires forall i :: 0 <= i < |es| ==> ValidEntry(es[i])
    ensures r == "Not Found" <==> |es| == 0
  {
    if |es| == 0 then "Not Found"
    else
      var lines := FormatAll(es);
      FormatAllLines(es);
      assert Join(lines)[0] == lines[0][0] == es[0].start[0];
      Join(lines)
  }

  /** The `is_ex_sg` flag after the loop over the periods: set exactly when some period
      is in Singapore. */
  function AnySingapore(es: seq<Entry>): (any: bool)
    ensures any <==> exists i :: 0 <= i < |es| && es[i].country == Singapore
  {
    if |es| == 0 then false
    else
      assert forall i :: 1 <= i < |es| ==> es[i] == es[1..][i - 1];
      es[0].country == Singapore || AnySingapore(es[1..])
  }

  /** The `Ex-Singapore Status` value: `"Yes"` when some period is in Singapore, `"No"`
      otherwise. */
  function ExSingapore(es: seq<Entry>): (r: string)
    ensures r == "Yes" || r == "No"
    ensures r == "Yes" <==> exists i :: 0 <= i < |es| && es[i].country == Singapore
  {
    if AnySingapore(es) then "Yes" else "No"
  }

  // ---------------------------------------------------------------------------
  // Reading the display lines back.
  // ---------------------------------------------------------------------------

  /** A display line read back: the two years as written, the number of years and the country. */
  datatype Line = Line(start: string, end: string, years: int, country: Country)

  const YearsTail: string := " yrs) - "

  /** The country whose title ends `s`. */
  function TitleAtEnd(s: string): (c: Option<Country>)
    ensures c.Some? ==> |CountryTitle(c.value)| <= |s|
  {
    if |s| >= 10 && s[|s| - 10..] == "Indonesian" then Some(Indonesian)
    else if |s| >= 9 && s[|s| - 9..] == "Singapore" then Some(Singapore)
    else None
  }

  /** Parse `yyyy-yyyy (n yrs) - Country`. */
  function ParseLine(s: string): Option<Line> {
    if |s| < 11 || !Year(s[..4]) || s[4] != '-' || !Year(s[5..9]) || s[9..11] != " (" then None
    else
      match TitleAtEnd(s)
      case None => None
      case Some(c) =>
        if |s| < 11 + |YearsTail| + |CountryTitle(c)| then None
        else
          var m := |s| - |CountryTitle(c)| - |YearsTail|;
          if s[m..m + |YearsTail|] != YearsTail || !SignedForm(s[11..m]) then None
          else Some(Line(s[..4], s[5..9], SignedValue(s[11..m]), c))
  }

  /** A text ending in a country title is read as that country. */
  lemma TitleAtEndOf(s: string, m: nat, c: Country)
    requires m <= |s| && s[m..] == CountryTitle(c)
    ensures TitleAtEnd(s) == Some(c)
  {
    if c == Singapore && |s| >= 10 {
      assert s[|s| - 10..][1] == s[m] == 'S';
    }
  }

  /** `ParseLine` once every piece has been located. */
  lemma ParseLineIs(s: string, m: nat, c: Country, y: string, a: string, b: string, v: int)
    requires 11 <= m && m + |YearsTail| + |CountryTitle(c)| == |s|
    requires s[..4] == a && Year(a) && s[4] == '-' && s[5..9] == b && Year(b) && s[9..11] == " ("
    requires s[m..m + |YearsTail|] == YearsTail && s[m + |YearsTail|..] == CountryTitle(c)
    requires s[11..m] == y && SignedForm(y) && SignedValue(y) == v
    ensures ParseLine(s) == Some(Line(a, b, v, c))
  {
    TitleAtEndOf(s, m + |YearsTail|, c);
  }

  /** Every display line reads back as its period and its `end - start` duration. */
  lemma ParseFormat(e: Entry)
    requires ValidEntry(e)
    ensures ParseLine(Format(e)) == Some(Line(e.start, e.end, DigitsValue(e.end) - DigitsValue(e.start), e.country))
  {
    var s := Format(e);
    var y := IntToString(Duration(e));
    var m := 11 + |y|;
    var v := DigitsValue(e.end) - DigitsValue(e.start);
    FormatLayout(e, s, y, m, v);
    ParseLineIs(s, m, e.country, y, e.start, e.end, v);
  }

  /** Where each piece of a display line lies. */
  lemma FormatLayout(e: Entry, s: string, y: string, m: nat, v: int)
    requires ValidEntry(e) && s == Format(e)
    requires y == IntToString(Duration(e)) && m == 11 + |y|
    requires v == DigitsValue(e.end) - DigitsValue(e.start)
    ensures 11 <= m && m + |YearsTail| + |CountryTitle(e.country)| == |s|
    ensures s[..4] == e.start && Year(e.start) && s[4] == '-' && s[5..9] == e.end && Year(e.end)
    ensures s[9..11] == " ("
    ensures s[m..m + |YearsTail|] == YearsTail && s[m + |YearsTail|..] == CountryTitle(e.country)
    ensures s[11..m] == y && SignedForm(y) && SignedValue(y) == v
  {
    IntToStringRoundTrip(Duration(e));
    FormatHead(e, s, y);
    FormatTail(s, y, CountryTitle(e.country), m);
  }

  /** The years and the opening parenthesis of a display line. */
  lemma FormatHead(e: Entry, s: string, y: string)
    requires ValidEntry(e) && s == Format(e) && y == IntToString(Duration(e))
    ensures 11 <= |s| && s[..4] == e.start && s[4] == '-' && s[5..9] == e.end && s[9..11] == " ("
    ensures s[11..] == y + (YearsTail + CountryTitle(e.country))
  {
    var r3 := y + (YearsTail + CountryTitle(e.country));
    var r2 := " (" + r3;
    var r1 := e.end + r2;
    var r0 := "-" + r1;
    assert s == e.start + r0;
    assert s[..4] == e.start && s[4..] == r0 by {
      SuffixSplit(s, 0, e.start, r0);
      assert s[..4] == s[0..4];
    }
    assert s[4] == '-' && s[5..] == r1 by {
      SuffixSplit(s, 4, "-", r1);
      SliceChars(s, 4, "-");
    }
    assert s[5..9] == e.end && s[9..] == r2 by {
      SuffixSplit(s, 5, e.end, r2);
    }
    assert s[9..11] == " (" && s[11..] == r3 by {
      SuffixSplit(s, 9, " (", r3);
    }
  }

  /** The number of years, the fixed text after it and the country title of a display line. */
  lemma FormatTail(s: string, y: string, title: string, m: nat)
    requires 11 <= |s| && s[11..] == y + (YearsTail + title) && m == 11 + |y|
    ensures m + |YearsTail| + |title| == |s|
    ensures s[11..m] == y && s[m..m + |YearsTail|] == YearsTail && s[m + |YearsTail|..] == title
  {
    var r4 := YearsTail + title;
    assert s[11..m] == y && s[m..] == r4 by {
      SuffixSplit(s, 11, y, r4);
    }
    SuffixSplit(s, m, YearsTail, title);
  }


  // ---------------------------------------------------------------------------
  // Splitting the joined value back into lines.
  // ---------------------------------------------------------------------------

  /** First position at or after `i` where the separator occurs, or `|s|`. */
  function FindSeparator(s: string, i: nat): (k: nat)
    requires i <= |s|
    ensures i <= k <= |s| && (k == |s| || ExactAt(s, k, Separator))
    decreases |s| - i
  {
    if i == |s| then |s|
    else if ExactAt(s, i, Separator) then i
    else FindSeparator(s, i + 1)
  }

  /** `s.split("<br>")`. */
  function Split(s: string): (parts: seq<string>)
    ensures |parts| > 0
    decreases |s|
  {
    var k := FindSeparator(s, 0);
    if k == |s| then [s] else [s[..k]] + Split(s[k + |Separator|..])
  }

  /** No `<` in `s`, so no separator starts inside it. */
  predicate NoAngle(s: string) {
    forall i :: 0 <= i < |s| ==> s[i] != '<'
  }

  lemma {:induction false} FindSeparatorSkips(s: string, i: nat, n: nat)
    requires i <= n <= |s| && forall j :: i <= j < n ==> s[j] != '<'
    requires n == |s| || ExactAt(s, n, Separator)
    ensures FindSeparator(s, i) == n
    decreases n - i
  {
    if i < n {
      assert !ExactAt(s, i, Separator) by {
        assert Separator[0] == '<';
      }
      FindSeparatorSkips(s, i + 1, n);
    }
  }

  /** Splitting the join of separator-free lines gives the lines back. */
  lemma {:induction false} SplitJoin(lines: seq<string>)
    requires |lines| > 0 && forall i :: 0 <= i < |lines| ==> NoAngle(lines[i])
    ensures Split(Join(lines)) == lines
    decreases |lines|
  {
    var l := lines[0];
    if |lines| == 1 {
      FindSeparatorSkips(l, 0, |l|);
    } else {
      var tail := lines[1..];
      var rest := Join(tail);
      var xs := Split(l + (Separator + rest));
      var ys := Split(rest);
      assert xs == [l] + ys by {
        SplitFirst(l, rest);
      }
      assert ys == tail by {
        SplitJoin(tail);
      }
      assert lines == [l] + tail;
    }
  }

  /** A line free of `<` followed by the separator is the first part of the split. */
  lemma SplitFirst(l: string, rest: string)
    requires NoAngle(l)
    ensures Split(l + (Separator + rest)) == [l] + Split(rest)
  {
    var s := l + (Separator + rest);
    assert s[|l|..|l| + |Separator|] == Separator;
    FindSeparatorSkips(s, 0, |l|);
    assert s[..|l|] == l && s[|l| + |Separator|..] == rest;
  }

  lemma NoAngleConcat(a: string, b: string)
    requires NoAngle(a) && NoAngle(b)
    ensures NoAngle(a + b)
  {
    assert forall k :: |a| <= k < |a + b| ==> (a + b)[k] == b[k - |a|];
  }

  lemma {:induction false} FormatAllLines(es: seq<Entry>)
    requires forall i :: 0 <= i < |es| ==> ValidEntry(es[i])
    ensures forall i :: 0 <= i < |es| ==> FormatAll(es)[i] == Format(es[i])
    decreases |es|
  {
    if |es| > 0 {
      FormatAllLines(es[1..]);
    }
  }

  /** The `Work Experience` value of at least one period splits on `<br>` into exactly
      one display line per period, in order; so it holds `n - 1` separators for `n` periods. */
  lemma WorkExperienceSplits(es: seq<Entry>)
    requires |es| > 0 && forall i :: 0 <= i < |es| ==> ValidEntry(es[i])
    ensures |Split(WorkExperience(es))| == |es|
    ensures forall i :: 0 <= i < |es| ==> Split(WorkExperience(es))[i] == Format(es[i])
  {
    FormatAllLines(es);
    SplitJoin(FormatAll(es));
  }

  /** A `"Yes"` comes with at least one listed period. */
  lemma ExSingaporeHasWork(es: seq<Entry>)
    requires forall i :: 0 <= i < |es| ==> ValidEntry(es[i])
    ensures ExSingapore(es) == "Yes" ==> WorkExperience(es) != "Not Found"
  {
  }

  // ---------------------------------------------------------------------------
  // Finding the periods of a text written out from them.
  // ---------------------------------------------------------------------------

  /** A period written the plain way, `COUNTRY yyyy Y - yyyy Y`, followed by `post`. */
  function RenderThen(e: Entry, post: string): string {
    CountryWord(e.country) + (" " + (e.start + (" Y - " + (e.end + (" Y" + post)))))
  }

  /** Periods written one after another, separated by single spaces. */
  function RenderAll(es: seq<Entry>): string {
    if |es| == 0 then ""
    else if |es| == 1 then RenderThen(es[0], "")
    else RenderThen(es[0], " " + RenderAll(es[1..]))
  }

  /** The country word at `p` is recognised as that country. */
  lemma CountryAtWord(t: string, p: nat, c: Country)
    requires ExactAt(t, p, CountryWord(c))
    ensures CountryAt(t, p) == Some(c)
  {
    if c == Singapore {
      assert "SINGAPORE"[0] == 'S' && "INDONESIAN"[0] == 'I';
    }
  }

  /** No period starts on a space. */
  lemma EntryAtSpace(t: string, p: nat)
    requires p < |t| && t[p] == ' '
    ensures EntryAt(t, p).None?
  {
    assert "SINGAPORE"[0] == 'S' && "INDONESIAN"[0] == 'I';
  }

  /** `\s*Y` ends after the `Y` that follows a whitespace run. */
  lemma YearMarkAt(t: string, i: nat, k: nat)
    requires Spaces(t, i, k) && k < |t| && t[k] == 'Y'
    ensures YearMarkEnd(t, i) == Some(k + 1)
  {
    SkipSpacesUnique(t, i, k);
  }

  /** `SecondYearAt` once the dash, the year and the closing `Y` have been located. */
  lemma SecondYearIs(t: string, k: nat, d: nat, f: nat, g: nat, y: string)
    requires k <= |t| && SkipSpaces(t, k) == d && d < |t| && t[d] == '-'
    requires SkipSpaces(t, d + 1) == f && YearAt(t, f) && t[f..f + 4] == y
    requires YearMarkEnd(t, f + 4) == Some(g)
    ensures SecondYearAt(t, k) == Some((y, g))
  {
  }

  /** `FirstYearAt` once the whitespace run and the closing `Y` have been located. */
  lemma FirstYearIs(t: string, i: nat, j: nat, k: nat, y: string)
    requires i <= |t| && SkipSpaces(t, i) == j && i < j && YearAt(t, j) && t[j..j + 4] == y
    requires YearMarkEnd(t, j + 4) == Some(k)
    ensures FirstYearAt(t, i) == Some((y, k))
  {
  }

  /** `EntryAt` once the country and both years have been located. */
  lemma EntryAtIs(t: string, p: nat, c: Country, a: string, b: string, k: nat, g: nat)
    requires p <= |t| && CountryAt(t, p) == Some(c)
    requires FirstYearAt(t, p + |CountryWord(c)|) == Some((a, k))
    requires SecondYearAt(t, k) == Some((b, g))
    ensures EntryAt(t, p) == Some((Entry(c, a, b), g))
  {
  }

  // ---------------------------------------------------------------------------
  // The period regex as a language: what a match at `p` looks like.
  // ---------------------------------------------------------------------------

  /** `t[p..g]` matches `(INDONESIAN|SINGAPORE)\s+(\d{4})\s*Y\s*-\s*(\d{4})\s*Y` with the
      groups of `e`: the whitespace runs end at `j` (before the first year), `y` (before
      the first `Y`), `d` (before the dash), `f` (before the second year) and `g - 1`
      (before the last `Y`). */
  predicate PeriodWith(t: string, p: nat, e: Entry, j: nat, y: nat, d: nat, f: nat, g: nat) {
    var n := p + |CountryWord(e.country)|;
    && ExactAt(t, p, CountryWord(e.country))
    && n < j && Spaces(t, n, j) && YearAt(t, j) && t[j..j + 4] == e.start
    && Spaces(t, j + 4, y) && y < |t| && t[y] == 'Y'
    && Spaces(t, y + 1, d) && d < |t| && t[d] == '-'
    && Spaces(t, d + 1, f) && YearAt(t, f) && t[f..f + 4] == e.end
    && f + 4 < g <= |t| && Spaces(t, f + 4, g - 1) && t[g - 1] == 'Y'
  }

  /** Some match of the period regex at `p` has the groups of `e` and ends at `g`. */
  ghost predicate PeriodShaped(t: string, p: nat, e: Entry, g: nat) {
    exists j: nat, y: nat, d: nat, f: nat :: PeriodWith(t, p, e, j, y, d, f, g)
  }

  /** The scanner finds period `e` ending at `g` exactly when the regex matches at `p`
      with those groups and that end, and it finds nothing exactly when the regex does
      not match at `p`. So the match, when there is one, is unique: every whitespace
      run stops before a digit, a `Y` or a dash, which it cannot give back. */
  lemma EntryAtIff(t: string, p: nat, e: Entry, g: nat)
    requires p <= |t|
    ensures EntryAt(t, p) == Some((e, g)) <==> PeriodShaped(t, p, e, g)
    ensures EntryAt(t, p).None? <==> forall e': Entry, g': nat :: !PeriodShaped(t, p, e', g')
  {
    if EntryAt(t, p) == Some((e, g)) {
      EntryAtSound(t, p, e, g);
    }
    if PeriodShaped(t, p, e, g) {
      var j: nat, y: nat, d: nat, f: nat :| PeriodWith(t, p, e, j, y, d, f, g);
      EntryAtComplete(t, p, e, j, y, d, f, g);
    }
    if EntryAt(t, p).Some? {
      var (e', g') := EntryAt(t, p).value;
      EntryAtSound(t, p, e', g');
    }
    forall e': Entry, g': nat | PeriodShaped(t, p, e', g')
      ensures EntryAt(t, p).Some?
    {
      var j: nat, y: nat, d: nat, f: nat :| PeriodWith(t, p, e', j, y, d, f, g');
      EntryAtComplete(t, p, e', j, y, d, f, g');
    }
  }

  /** What the scanner finds is a match of the regex. */
  lemma EntryAtSound(t: string, p: nat, e: Entry, g: nat)
    requires p <= |t| && EntryAt(t, p) == Some((e, g))
    ensures PeriodShaped(t, p, e, g)
  {
    var k := EntryAtParts(t, p, e, g);
    EntryAtSecond(t, p, e, g, k);
    PiecesShaped(t, p, e, k, g);
  }

  /** The pieces found by `FirstYearAt` and `SecondYearAt` after a country word make a
      match of the regex. */
  lemma PiecesShaped(t: string, p: nat, e: Entry, k: nat, g: nat)
    requires ExactAt(t, p, CountryWord(e.country)) && k <= |t|
    requires FirstYearAt(t, p + |CountryWord(e.country)|).Some?
    requires FirstYearAt(t, p + |CountryWord(e.country)|).value.0 == e.start
    requires FirstYearAt(t, p + |CountryWord(e.country)|).value.1 == k
    requires SecondYearAt(t, k).Some? && SecondYearAt(t, k).value.0 == e.end
    requires SecondYearAt(t, k).value.1 == g
    ensures PeriodShaped(t, p, e, g)
  {
    var j := FirstYearSound(t, p + |CountryWord(e.country)|, e.start, k);
    SecondPieceShaped(t, p, e, j, k, g);
  }

  /** The second half of `PiecesShaped`, once the first year has been located. */
  lemma SecondPieceShaped(t: string, p: nat, e: Entry, j: nat, k: nat, g: nat)
    requires ExactAt(t, p, CountryWord(e.country))
    requires p + |CountryWord(e.country)| < j && Spaces(t, p + |CountryWord(e.country)|, j)
    requires YearAt(t, j) && t[j..j + 4] == e.start
    requires 0 < k && Spaces(t, j + 4, k - 1) && k - 1 < |t| && t[k - 1] == 'Y'
    requires SecondYearAt(t, k).Some? && SecondYearAt(t, k).value.0 == e.end
    requires SecondYearAt(t, k).value.1 == g
    ensures PeriodShaped(t, p, e, g)
  {
    var d, f := SecondYearSound(t, k, e.end, g);
    PeriodShapedAt(t, p, e, j, k - 1, d, f, g);
  }

  /** The three pieces `EntryAt` puts together: the country word, the first year ending
      at `k` and, in `EntryAtSecond`, the second year ending at `g`. */
  lemma EntryAtParts(t: string, p: nat, e: Entry, g: nat) returns (k: nat)
    requires p <= |t| && EntryAt(t, p).Some? && EntryAt(t, p).value.0 == e && EntryAt(t, p).value.1 == g
    ensures ExactAt(t, p, CountryWord(e.country)) && k <= |t|
    ensures FirstYearAt(t, p + |CountryWord(e.country)|).Some?
    ensures FirstYearAt(t, p + |CountryWord(e.country)|).value.0 == e.start
    ensures FirstYearAt(t, p + |CountryWord(e.country)|).value.1 == k
  {
    k := FirstYearAt(t, p + |CountryWord(e.country)|).value.1;
  }

  /** The second year of what `EntryAt` finds starts where the first one ended. */
  lemma EntryAtSecond(t: string, p: nat, e: Entry, g: nat, k: nat)
    requires p <= |t| && EntryAt(t, p).Some? && EntryAt(t, p).value.0 == e && EntryAt(t, p).value.1 == g
    requires p + |CountryWord(e.country)| <= |t|
    requires FirstYearAt(t, p + |CountryWord(e.country)|).Some?
    requires FirstYearAt(t, p + |CountryWord(e.country)|).value.1 == k
    ensures k <= |t| && SecondYearAt(t, k).Some? && SecondYearAt(t, k).value.0 == e.end
    ensures SecondYearAt(t, k).value.1 == g
  {
  }

  /** The pieces of `\s+(\d{4})\s*Y` that `FirstYearAt` found: the whitespace run up to
      `j`, the year `a`, and the `Y` ending at `k`. */
  lemma FirstYearSound(t: string, i: nat, a: string, k: nat) returns (j: nat)
    requires i <= |t| && FirstYearAt(t, i).Some?
    requires FirstYearAt(t, i).value.0 == a && FirstYearAt(t, i).value.1 == k
    ensures i < j && Spaces(t, i, j) && YearAt(t, j) && t[j..j + 4] == a
    ensures 0 < k && Spaces(t, j + 4, k - 1) && k - 1 < |t| && t[k - 1] == 'Y'
  {
    j := SkipSpaces(t, i);
    FirstYearFound(t, i, j);
    YearMarkSound(t, j + 4, k);
  }

  /** Where `FirstYearAt` succeeds, the year it returns and the `Y` mark follow the
      whitespace run. */
  lemma FirstYearFound(t: string, i: nat, j: nat)
    requires i <= |t| && FirstYearAt(t, i).Some? && j == SkipSpaces(t, i)
    ensures i < j && YearAt(t, j) && t[j..j + 4] == FirstYearAt(t, i).value.0
    ensures YearMarkEnd(t, j + 4) == Some(FirstYearAt(t, i).value.1)
  {
  }

  /** The whitespace run and the `Y` that `YearMarkEnd` found. */
  lemma YearMarkSound(t: string, i: nat, k: nat)
    requires i <= |t| && YearMarkEnd(t, i) == Some(k)
    ensures 0 < k && Spaces(t, i, k - 1) && k - 1 < |t| && t[k - 1] == 'Y'
  {
  }

  /** The pieces of `\s*-\s*(\d{4})\s*Y` that `SecondYearAt` found: the whitespace run
      up to the dash at `d`, the one up to the year `b` at `f`, and the `Y` ending at `g`. */
  lemma SecondYearSound(t: string, k: nat, b: string, g: nat) returns (d: nat, f: nat)
    requires k <= |t| && SecondYearAt(t, k).Some?
    requires SecondYearAt(t, k).value.0 == b && SecondYearAt(t, k).value.1 == g
    ensures Spaces(t, k, d) && d < |t| && t[d] == '-'
    ensures Spaces(t, d + 1, f) && YearAt(t, f) && t[f..f + 4] == b
    ensures f + 4 < g <= |t| && Spaces(t, f + 4, g - 1) && t[g - 1] == 'Y'
  {
    d := SkipSpaces(t, k);
    f := SkipSpaces(t, d + 1);
    SecondYearFound(t, k, d, f);
    YearMarkSound(t, f + 4, g);
  }

  /** Where `SecondYearAt` succeeds, the dash, the year it returns and the `Y` mark
      follow the whitespace runs. */
  lemma SecondYearFound(t: string, k: nat, d: nat, f: nat)
    requires k <= |t| && SecondYearAt(t, k).Some?
    requires d == SkipSpaces(t, k) && f == SkipSpaces(t, d + 1)
    ensures d < |t| && t[d] == '-'
    ensures YearAt(t, f) && t[f..f + 4] == SecondYearAt(t, k).value.0
    ensures YearMarkEnd(t, f + 4) == Some(SecondYearAt(t, k).value.1)
  {
  }

  /** A match of the regex, from its pieces. */
  lemma PeriodShapedAt(t: string, p: nat, e: Entry, j: nat, y: nat, d: nat, f: nat, g: nat)
    requires ExactAt(t, p, CountryWord(e.country))
    requires p + |CountryWord(e.country)| < j && Spaces(t, p + |CountryWord(e.country)|, j)
    requires YearAt(t, j) && t[j..j + 4] == e.start
    requires Spaces(t, j + 4, y) && y < |t| && t[y] == 'Y'
    requires Spaces(t, y + 1, d) && d < |t| && t[d] == '-'
    requires Spaces(t, d + 1, f) && YearAt(t, f) && t[f..f + 4] == e.end
    requires f + 4 < g <= |t| && Spaces(t, f + 4, g - 1) && t[g - 1] == 'Y'
    ensures PeriodShaped(t, p, e, g)
  {
    assert PeriodWith(t, p, e, j, y, d, f, g);
  }

  /** Every match of the regex is what the scanner finds. */
  lemma EntryAtComplete(t: string, p: nat, e: Entry, j: nat, y: nat, d: nat, f: nat, g: nat)
    requires p <= |t| && PeriodWith(t, p, e, j, y, d, f, g)
    ensures EntryAt(t, p) == Some((e, g))
  {
    PeriodPieces(t, p, e, j, y, d, f, g);
    PeriodSecondYear(t, p, e, j, y, d, f, g);
    EntryAtFromPieces(t, p, e, y + 1, g);
  }

  /** `EntryAt` from the pieces of a match, stated for the period `e` itself. */
  lemma EntryAtFromPieces(t: string, p: nat, e: Entry, k: nat, g: nat)
    requires p <= |t| && CountryAt(t, p) == Some(e.country)
    requires FirstYearAt(t, p + |CountryWord(e.country)|) == Some((e.start, k))
    requires SecondYearAt(t, k) == Some((e.end, g))
    ensures EntryAt(t, p) == Some((e, g))
  {
    EntryAtIs(t, p, e.country, e.start, e.end, k, g);
  }

  /** A match of the regex, cut into the pieces `EntryAt` looks for: the country word,
      the first year and, in `PeriodSecondYear`, the dash and the second year. */
  lemma PeriodPieces(t: string, p: nat, e: Entry, j: nat, y: nat, d: nat, f: nat, g: nat)
    requires p <= |t| && PeriodWith(t, p, e, j, y, d, f, g)
    ensures CountryAt(t, p) == Some(e.country)
    ensures FirstYearAt(t, p + |CountryWord(e.country)|) == Some((e.start, y + 1))
  {
    FirstYearFrom(t, p + |CountryWord(e.country)|, j, y, e.start);
    CountryAtWord(t, p, e.country);
  }

  lemma PeriodSecondYear(t: string, p: nat, e: Entry, j: nat, y: nat, d: nat, f: nat, g: nat)
    requires p <= |t| && PeriodWith(t, p, e, j, y, d, f, g)
    ensures SecondYearAt(t, y + 1) == Some((e.end, g))
  {
    SecondYearFrom(t, y + 1, d, f, g, e.end);
  }

  /** The first year of a match, as `FirstYearAt` finds it. */
  lemma FirstYearFrom(t: string, n: nat, j: nat, y: nat, a: string)
    requires n < j && Spaces(t, n, j) && YearAt(t, j) && t[j..j + 4] == a
    requires Spaces(t, j + 4, y) && y < |t| && t[y] == 'Y'
    ensures FirstYearAt(t, n) == Some((a, y + 1))
  {
    SkipSpacesUnique(t, n, j);
    YearMarkAt(t, j + 4, y);
    FirstYearIs(t, n, j, y + 1, a);
  }

  /** The dash and second year of a match, as `SecondYearAt` finds them. */
  lemma SecondYearFrom(t: string, k: nat, d: nat, f: nat, g: nat, b: string)
    requires Spaces(t, k, d) && d < |t| && t[d] == '-'
    requires Spaces(t, d + 1, f) && YearAt(t, f) && t[f..f + 4] == b
    requires f + 4 < g <= |t| && Spaces(t, f + 4, g - 1) && t[g - 1] == 'Y'
    ensures SecondYearAt(t, k) == Some((b, g))
  {
    SkipSpacesUnique(t, k, d);
    SkipSpacesUnique(t, d + 1, f);
    YearMarkAt(t, f + 4, g - 1);
    SecondYearIs(t, k, d, f, g, b);
  }

  /** The layout of the start of a written period: the country word, a space and the
      first year, followed by the rest. */
  lemma RenderHead(t: string, p: nat, e: Entry, post: string, n: nat)
    requires ValidEntry(e) && p <= |t| && t[p..] == RenderThen(e, post)
    requires n == p + |CountryWord(e.country)|
    ensures n + 5 <= |t| && ExactAt(t, p, CountryWord(e.country))
    ensures t[n] == ' ' && t[n + 1..n + 5] == e.start && IsDigit(t[n + 1])
    ensures t[n + 5..] == " Y - " + (e.end + (" Y" + post))
  {
    var w := CountryWord(e.country);
    var s3 := " Y - " + (e.end + (" Y" + post));
    var s2 := e.start + s3;
    var s1 := " " + s2;
    assert t[n..] == s1 && ExactAt(t, p, w) by {
      SuffixSplit(t, p, w, s1);
      SliceChars(t, p, w);
    }
    assert t[n + 1..] == s2 && t[n] == ' ' by {
      SuffixSplit(t, n, " ", s2);
      SliceChars(t, n, " ");
    }
    assert t[n + 5..] == s3 && t[n + 1..n + 5] == e.start && IsDigit(t[n + 1]) by {
      SuffixSplit(t, n + 1, e.start, s3);
      SliceChars(t, n + 1, e.start);
    }
  }

  /** The layout of the end of a written period: ` Y - `, the second year and ` Y`,
      followed by `post`. */
  lemma RenderTail(t: string, k: nat, y: string, post: string)
    requires Year(y) && k <= |t| && t[k..] == " Y - " + (y + (" Y" + post))
    ensures k + 11 <= |t|
    ensures t[k] == ' ' && t[k + 1] == 'Y' && t[k + 2] == ' ' && t[k + 3] == '-' && t[k + 4] == ' '
    ensures t[k + 5..k + 9] == y && IsDigit(t[k + 5]) && t[k + 9] == ' ' && t[k + 10] == 'Y'
    ensures t[k + 11..] == post
  {
    var s5 := " Y" + post;
    var s4 := y + s5;
    assert t[k + 5..] == s4 && t[k] == ' ' && t[k + 1] == 'Y' && t[k + 2] == ' '
        && t[k + 3] == '-' && t[k + 4] == ' ' by {
      SuffixSplit(t, k, " Y - ", s4);
      SliceChars(t, k, " Y - ");
    }
    assert t[k + 9..] == s5 && t[k + 5..k + 9] == y && IsDigit(t[k + 5]) by {
      SuffixSplit(t, k + 5, y, s5);
      SliceChars(t, k + 5, y);
    }
    assert t[k + 11..] == post && t[k + 9] == ' ' && t[k + 10] == 'Y' by {
      SuffixSplit(t, k + 9, " Y", post);
      SliceChars(t, k + 9, " Y");
    }
  }

  /** ` yyyy Y` at `i` is read as the first year, ending after the `Y`. */
  lemma FirstYearRender(t: string, i: nat, y: string)
    requires i + 7 <= |t| && t[i] == ' ' && t[i + 1..i + 5] == y && Year(y) && IsDigit(t[i + 1])
    requires t[i + 5] == ' ' && t[i + 6] == 'Y'
    ensures FirstYearAt(t, i) == Some((y, i + 7))
  {
    SkipSpacesUnique(t, i, i + 1);
    YearMarkAt(t, i + 5, i + 6);
    FirstYearIs(t, i, i + 1, i + 7, y);
  }

  /** ` - yyyy Y` at `k` is read as the second year, ending after the `Y`. */
  lemma SecondYearRender(t: string, k: nat, y: string)
    requires k + 9 <= |t| && t[k] == ' ' && t[k + 1] == '-' && t[k + 2] == ' '
    requires t[k + 3..k + 7] == y && Year(y) && IsDigit(t[k + 3])
    requires t[k + 7] == ' ' && t[k + 8] == 'Y'
    ensures SecondYearAt(t, k) == Some((y, k + 9))
  {
    SkipSpacesUnique(t, k, k + 1);
    SkipSpacesUnique(t, k + 2, k + 3);
    YearMarkAt(t, k + 7, k + 8);
    SecondYearIs(t, k, k + 1, k + 3, k + 9, y);
  }

  /** A written period is matched where it starts, and the match ends where it ends. */
  lemma EntryAtRender(t: string, p: nat, e: Entry, post: string)
    requires ValidEntry(e) && p <= |t| && t[p..] == RenderThen(e, post)
    ensures var g := p + |CountryWord(e.country)| + 16;
      g <= |t| && EntryAt(t, p) == Some((e, g)) && t[g..] == post
  {
    var n := p + |CountryWord(e.country)|;
    RenderCountry(t, p, e, post);
    RenderFirstYear(t, p, e, post, n);
    RenderSecondYear(t, p, e, post, n);
    EntryAtIs(t, p, e.country, e.start, e.end, n + 7, n + 16);
  }

  /** The country word of a written period is recognised. */
  lemma RenderCountry(t: string, p: nat, e: Entry, post: string)
    requires ValidEntry(e) && p <= |t| && t[p..] == RenderThen(e, post)
    ensures CountryAt(t, p) == Some(e.country)
  {
    RenderHead(t, p, e, post, p + |CountryWord(e.country)|);
    CountryAtWord(t, p, e.country);
  }

  /** The first year of a written period is read after its country word. */
  lemma RenderFirstYear(t: string, p: nat, e: Entry, post: string, n: nat)
    requires ValidEntry(e) && p <= |t| && t[p..] == RenderThen(e, post)
    requires n == p + |CountryWord(e.country)|
    ensures n <= |t| && FirstYearAt(t, n) == Some((e.start, n + 7))
  {
    RenderHead(t, p, e, post, n);
    RenderTail(t, n + 5, e.end, post);
    FirstYearRender(t, n, e.start);
  }

  /** The second year of a written period is read after the first, and `post` follows. */
  lemma RenderSecondYear(t: string, p: nat, e: Entry, post: string, n: nat)
    requires ValidEntry(e) && p <= |t| && t[p..] == RenderThen(e, post)
    requires n == p + |CountryWord(e.country)|
    ensures n + 16 <= |t| && SecondYearAt(t, n + 7) == Some((e.end, n + 16)) && t[n + 16..] == post
  {
    RenderHead(t, p, e, post, n);
    RenderTail(t, n + 5, e.end, post);
    SecondYearRender(t, n + 7, e.end);
  }

  /** `findall` takes the match at `p` and resumes after it. */
  lemma FindAllTakes(t: string, p: nat, e: Entry, q: nat)
    requires p < |t| && EntryAt(t, p) == Some((e, q))
    ensures FindAll(t, p) == [e] + FindAll(t, q)
  {
  }

  /** `findall` moves on from a position where nothing matches. */
  lemma FindAllSkips(t: string, p: nat)
    requires p < |t| && EntryAt(t, p).None?
    ensures FindAll(t, p) == FindAll(t, p + 1)
  {
  }

  /** A match that runs to the end of the text is the last one `findall` reports. */
  lemma FindAllLast(t: string, p: nat, e: Entry, g: nat)
    requires p < |t| && EntryAt(t, p) == Some((e, g)) && g == |t|
    ensures FindAll(t, p) == [e]
  {
    FindAllTakes(t, p, e, g);
  }

  /** A single written period is found as itself. */
  lemma FindAllRenderOne(t: string, p: nat, e: Entry)
    requires ValidEntry(e) && p <= |t| && t[p..] == RenderThen(e, "")
    ensures FindAll(t, p) == [e]
  {
    EntryAtRender(t, p, e, "");
    var g := p + |CountryWord(e.country)| + 16;
    assert |t[g..]| == 0;
    FindAllLast(t, p, e, g);
  }

  /** A match followed by a space: `findall` reports it and goes on after the space. */
  lemma FindAllOverSpace(t: string, p: nat, e: Entry, n: nat)
    requires p < |t| && EntryAt(t, p) == Some((e, n)) && n < |t| && t[n] == ' '
    ensures FindAll(t, p) == [e] + FindAll(t, n + 1)
  {
    FindAllTakes(t, p, e, n);
    EntryAtSpace(t, n);
    FindAllSkips(t, n);
  }

  /** A written period followed by a space and more text is matched, and the space and
      the text follow the match. */
  lemma RenderFirst(t: string, p: nat, e: Entry, rest: string)
    requires ValidEntry(e) && p <= |t| && t[p..] == RenderThen(e, " " + rest)
    ensures var n := p + |CountryWord(e.country)| + 16;
      && n < |t| && EntryAt(t, p) == Some((e, n)) && t[n] == ' ' && t[n + 1..] == rest
  {
    EntryAtRender(t, p, e, " " + rest);
    var n := p + |CountryWord(e.country)| + 16;
    SuffixSplit(t, n, " ", rest);
    SliceChars(t, n, " ");
  }

  /** A written period followed by a space and more text: `findall` reports the period
      and resumes on the text. */
  lemma FindAllRenderStep(t: string, p: nat, e: Entry, rest: string, n: nat)
    requires ValidEntry(e) && p <= |t| && t[p..] == RenderThen(e, " " + rest)
    requires n == p + |CountryWord(e.country)| + 16
    ensures n + 1 <= |t| && t[n + 1..] == rest && FindAll(t, p) == [e] + FindAll(t, n + 1)
  {
    RenderFirst(t, p, e, rest);
    FindAllOverSpace(t, p, e, n);
  }

  /** A list built from the head and the tail of `es` is `es`. */
  lemma HeadTail(xs: seq<Entry>, ys: seq<Entry>, es: seq<Entry>)
    requires |es| > 0 && xs == [es[0]] + ys && ys == es[1..]
    ensures xs == es
  {
  }

  /** No period, or a single one, written out is found as itself. */
  lemma FindAllRenderShort(t: string, p: nat, es: seq<Entry>)
    requires |es| <= 1 && forall i :: 0 <= i < |es| ==> ValidEntry(es[i])
    requires p <= |t| && t[p..] == RenderAll(es)
    ensures FindAll(t, p) == es
  {
    if |es| == 1 {
      FindAllRenderOne(t, p, es[0]);
    }
  }

  /** `re.findall` over periods written one after another finds exactly those periods. */
  lemma {:induction false} FindAllRenderFrom(t: string, p: nat, es: seq<Entry>)
    requires forall i :: 0 <= i < |es| ==> ValidEntry(es[i])
    requires p <= |t| && t[p..] == RenderAll(es)
    ensures FindAll(t, p) == es
    decreases |es|, 1
  {
    if |es| <= 1 {
      FindAllRenderShort(t, p, es);
    } else {
      FindAllRenderMany(t, p, es);
    }
  }

  /** The case of several periods: `findall` reports the first, then finds the others
      after it and its space. */
  lemma {:induction false} FindAllRenderMany(t: string, p: nat, es: seq<Entry>)
    requires |es| > 1 && forall i :: 0 <= i < |es| ==> ValidEntry(es[i])
    requires p <= |t| && t[p..] == RenderAll(es)
    ensures FindAll(t, p) == es
    decreases |es|, 0
  {
    var e := es[0];
    var rest := es[1..];
    var n := p + |CountryWord(e.country)| + 16;
    var q := n + 1;
    var xs := FindAll(t, p);
    var ys := FindAll(t, q);
    assert q <= |t| && t[q..] == RenderAll(rest) && xs == [e] + ys by {
      FindAllRenderStep(t, p, e, RenderAll(rest), n);
    }
    assert ys == rest by {
      FindAllRenderFrom(t, q, rest);
    }
    HeadTail(xs, ys, es);
  }

  /** `re.findall` over periods written one after another finds exactly those periods. */
  lemma FindAllRender(es: seq<Entry>)
    requires forall i :: 0 <= i < |es| ==> ValidEntry(es[i])
    ensures FindAll(RenderAll(es), 0) == es
  {
    FindAllRenderFrom(RenderAll(es), 0, es);
  }

  /** Text with no line break in it. */
  predicate OneLine(s: string) {
    NoNewline(s, 0, |s|)
  }

  lemma OneLineConcat(a: string, b: string)
    requires OneLine(a) && OneLine(b)
    ensures OneLine(a + b)
  {
    assert forall k :: |a| <= k < |a + b| ==> (a + b)[k] == b[k - |a|];
  }

  lemma DigitsOneLine(s: string)
    requires AllDigits(s)
    ensures OneLine(s)
  {
  }

  /** A period written out stays on one line when what follows it does; it starts
      with its country word and ends where `post` ends, or with the `Y` of its end year. */
  lemma RenderThenPlain(e: Entry, post: string)
    requires ValidEntry(e) && OneLine(post)
    ensures OneLine(RenderThen(e, post))
    ensures !IsSpace(RenderThen(e, post)[0])
    ensures RenderThen(e, post)[|RenderThen(e, post)| - 1] == if |post| == 0 then 'Y' else post[|post| - 1]
  {
    var w := CountryWord(e.country);
    assert "SINGAPORE"[0] == 'S' && "INDONESIAN"[0] == 'I';
    assert OneLine(w);
    DigitsOneLine(e.start);
    DigitsOneLine(e.end);
    OneLineConcat(" Y", post);
    OneLineConcat(e.end, " Y" + post);
    OneLineConcat(" Y - ", e.end + (" Y" + post));
    OneLineConcat(e.start, " Y - " + (e.end + (" Y" + post)));
    OneLineConcat(" ", e.start + (" Y - " + (e.end + (" Y" + post))));
    OneLineConcat(w, " " + (e.start + (" Y - " + (e.end + (" Y" + post)))));
  }

  /** Periods written out one after another form a single line with no whitespace at
      either end. */
  lemma {:induction false} RenderAllPlain(es: seq<Entry>)
    requires forall i :: 0 <= i < |es| ==> ValidEntry(es[i])
    ensures OneLine(RenderAll(es)) && Trimmed(RenderAll(es))
    decreases |es|
  {
    if |es| == 1 {
      RenderThenPlain(es[0], "");
    } else if |es| > 1 {
      var e := es[0];
      var tail := es[1..];
      var rest := RenderAll(tail);
      assert OneLine(rest) && Trimmed(rest) && |rest| > 0 by {
        RenderAllPlain(tail);
      }
      assert OneLine(" " + rest) by {
        OneLineConcat(" ", rest);
      }
      RenderThenPlain(e, " " + rest);
    }
  }
}
