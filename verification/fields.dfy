/**
 * `extract_fields`: the biodata values read off the collapsed document text.
 * Eight values sit between a label and the label that follows it on the form,
 * the children count says which of the two children lines carry an age, and the
 * work experience is read from the periods between the work and employment headings.
 */
module Fields {
  import opened Wrappers
  import opened Chars
  import opened Numbers
  import opened Patterns
  import opened Work

  /** The default of `regex_search` and the value of an empty work history. */
  const NotFound: string := "Not Found"

  // ---------------------------------------------------------------------------
  // The labels of the form and the patterns built from them.
  // ---------------------------------------------------------------------------

  const NameLabel: Label := ["NAME NAMA"]
  /** `TEMPAT,? TGL LAHIR`: with the comma first, as the regex tries it. */
  const BirthLabel: Label := ["TEMPAT, TGL LAHIR", "TEMPAT TGL LAHIR"]
  const AgeLabel: Label := [AgeMarker]
  const GenderLabel: Label := ["GENDER JENIS KELAMIN"]
  const HeightLabel: Label := ["HEIGHT"]
  const EducationLabel: Label := ["EDUCATION PENDIDIKAN"]
  const GraduationLabel: Label := ["GRADUATION"]
  /** `RELIGIONA? AGAMA`: with the `A` first, as the regex tries it. */
  const ReligionLabel: Label := ["RELIGIONA AGAMA", "RELIGION AGAMA"]
  const LanguageLabel: Label := ["LANGUAGE BAHASA"]
  /** The end of the religion value is any `LANGUAGE`, not only the full label. */
  const LanguageWord: Label := ["LANGUAGE"]
  const ParentLabel: Label := ["PARENT ORANG TUA"]
  const MaritalLabel: Label := ["STATUS PERKAWINAN"]
  const ChildLabel: Label := ["CHILD"]
  const BoyLabel: Label := ["BOY LAKI-LAKI"]
  const GirlLabel: Label := ["GIRL PEREMPUAN"]
  const WorkLabel: Label := ["WORK EXPERIENCE PENGALAMAN KERJA"]
  const EmploymentLabel: Label := ["EMPLOYMENT HISTORY"]

  const NameRule: Pattern := Field(NameLabel, BirthLabel)
  const BirthRule: Pattern := Field(BirthLabel, AgeLabel)
  const AgeRule: Pattern := Field(AgeLabel, GenderLabel)
  const GenderRule: Pattern := Field(GenderLabel, HeightLabel)
  const EducationRule: Pattern := Field(EducationLabel, GraduationLabel)
  const ReligionRule: Pattern := Field(ReligionLabel, LanguageWord)
  const LanguageRule: Pattern := Field(LanguageLabel, ParentLabel)
  const MaritalRule: Pattern := Field(MaritalLabel, ChildLabel)
  const BoyRule: Pattern := Count(BoyLabel)
  const GirlRule: Pattern := Count(GirlLabel)
  const WorkRule: Pattern := Block(WorkLabel, EmploymentLabel)

  /** The label-bounded fields, in the order their values are stored. */
  const FieldRules: seq<Pattern> :=
    [NameRule, BirthRule, AgeRule, GenderRule, EducationRule, ReligionRule, LanguageRule, MaritalRule]

  /** The keys of the dictionary the extractor fills. */
  datatype Key =
    | NameKey | BirthKey | AgeKey | GenderKey | EducationKey | ReligionKey | LanguageKey
    | MaritalKey | ChildrenKey | WorkKey | ExSingaporeKey

  /** Each key as it is written in the dictionary. */
  function KeyText(k: Key): string {
    match k
    case NameKey => "Name"
    case BirthKey => "Birthplace & DOB"
    case AgeKey => "Age"
    case GenderKey => "Gender"
    case EducationKey => "Education"
    case ReligionKey => "Religion"
    case LanguageKey => "Language"
    case MaritalKey => "Marital Status"
    case ChildrenKey => "No. of Children"
    case WorkKey => "Work Experience"
    case ExSingaporeKey => "Ex-Singapore Status"
  }

  /** The keys in the order the extractor inserts them. */
  const Keys: seq<Key> :=
    [ NameKey, BirthKey, AgeKey, GenderKey, EducationKey, ReligionKey, LanguageKey,
      MaritalKey, ChildrenKey, WorkKey, ExSingaporeKey ]

  /** Where the computed values sit among the items. */
  const ChildrenIndex: nat := 8
  const WorkIndex: nat := 9
  const ExSingaporeIndex: nat := 10

  /** Every label of the form starts with an upper-case letter. */
  lemma FieldRulesWellFormed()
    ensures forall i :: 0 <= i < |FieldRules| ==> FieldRules[i].Field? && WellFormedPattern(FieldRules[i])
  {
  }

  lemma ChildLabelsWellFormed()
    ensures WellFormed(BoyLabel) && WellFormed(GirlLabel)
  {
  }

  // ---------------------------------------------------------------------------
  // The extractor.
  // ---------------------------------------------------------------------------

  /** `count` after the two children tests: one for each non-empty age. */
  function ChildCount(text: string): (n: nat)
    ensures n <= 2
  {
    (if RegexSearch(BoyRule, text, "") != "" then 1 else 0)
    + (if RegexSearch(GirlRule, text, "") != "" then 1 else 0)
  }

  /** The periods `re.findall` lists in the work block, which is empty when the
      block is not found. */
  function WorkEntries(text: string): (es: seq<Entry>)
    ensures forall i :: 0 <= i < |es| ==> ValidEntry(es[i])
  {
    FindAll(RegexSearch(WorkRule, text, ""), 0)
  }

  /** `regex_search(pattern, text)` for each label-bounded field in turn. */
  function SearchEach(rules: seq<Pattern>, text: string): (values: seq<string>)
    ensures |values| == |rules|
    ensures forall i :: 0 <= i < |rules| ==> values[i] == RegexSearch(rules[i], text, NotFound)
  {
    if |rules| == 0 then [] else [RegexSearch(rules[0], text, NotFound)] + SearchEach(rules[1..], text)
  }

  /** The values of the dictionary, in insertion order. */
  function Values(text: string): (values: seq<string>)
    ensures |values| == |Keys|
  {
    var es := WorkEntries(text);
    SearchEach(FieldRules, text) + [NatToString(ChildCount(text)), WorkExperience(es), ExSingapore(es)]
  }

  /** The items of a dictionary built from its keys and values in order. */
  function Zip(keys: seq<Key>, values: seq<string>): (items: seq<(Key, string)>)
    requires |keys| == |values|
    ensures |items| == |keys|
    ensures forall i :: 0 <= i < |keys| ==> items[i] == (keys[i], values[i])
  {
    if |keys| == 0 then [] else [(keys[0], values[0])] + Zip(keys[1..], values[1..])
  }

  /** The dictionary `extract_fields` returns, as its items in insertion order. */
  function ExtractFields(text: string): (fields: seq<(Key, string)>)
    ensures |fields| == |Keys|
    ensures forall i :: 0 <= i < |Keys| ==> fields[i].0 == Keys[i]
  {
    Zip(Keys, Values(text))
  }

  // ---------------------------------------------------------------------------
  // What the values are.
  // ---------------------------------------------------------------------------

  /** The result is a dictionary: no key is stored twice. */
  lemma KeysDistinct()
    ensures forall i, j :: 0 <= i < j < |Keys| ==> Keys[i] != Keys[j]
    ensures forall k, k' :: k != k' ==> KeyText(k) != KeyText(k')
  {
  }


  /** The pattern `pat` matches somewhere in `text`. */
  ghost predicate Occurs(text: string, pat: Pattern) {
    exists p :: 0 <= p <= |text| && Shaped(text, p, pat)
  }

  /** A label-bounded value is `"Not Found"` when its pattern matches nowhere, and
      otherwise the capture of the leftmost match: stripped, on one line, and free
      of the label that ends it. */
  lemma FieldValue(text: string, i: nat)
    requires i < |FieldRules|
    ensures !Occurs(text, FieldRules[i]) ==> ExtractFields(text)[i].1 == NotFound
    ensures Occurs(text, FieldRules[i]) ==>
      && Search(text, FieldRules[i]).Some?
      && ExtractFields(text)[i].1 == Search(text, FieldRules[i]).value.capture
      && CaptureFits(ExtractFields(text)[i].1, FieldRules[i])
  {
    FieldItem(text, i);
    FieldRulesWellFormed();
    FieldSearchValue(text, FieldRules[i]);
  }

  /** What `regex_search` gives for a label-bounded pattern, with `"Not Found"` as
      the default. */
  lemma FieldSearchValue(text: string, pat: Pattern)
    requires pat.Field? && WellFormedPattern(pat)
    ensures !Occurs(text, pat) ==> RegexSearch(pat, text, NotFound) == NotFound
    ensures Occurs(text, pat) ==>
      && Search(text, pat).Some?
      && RegexSearch(pat, text, NotFound) == Search(text, pat).value.capture
      && CaptureFits(RegexSearch(pat, text, NotFound), pat)
  {
    SearchIsLeftmost(text, pat);
    if Search(text, pat).Some? {
      RegexSearchFound(pat, text, NotFound);
    }
  }

  /** The label-bounded values are the searches' results, in the order of `FieldRules`. */
  lemma FieldItem(text: string, i: nat)
    requires i < |FieldRules|
    ensures ExtractFields(text)[i].1 == RegexSearch(FieldRules[i], text, NotFound)
  {
  }

  /** A form that writes a field as its label, a colon, the value and the next label
      gives that value back, provided nothing earlier starts the field's label and the
      value is a single stripped line in which the next label does not start. */
  lemma FieldReadsBack(text: string, i: nat, pre: string, a: string, v: string, b: string, post: string)
    requires i < |FieldRules| && a in FieldRules[i].start && b in FieldRules[i].stop
    requires text == pre + (a + (" : " + (v + (" " + (b + post)))))
    requires forall p :: 0 <= p < |pre| ==> !LabelAt(text, p, FieldRules[i].start)
    requires forall a' :: a' in FieldRules[i].start && LitAt(text, |pre|, a') ==> a' == a
    requires Trimmed(v) && NoNewline(v, 0, |v|)
    requires forall y :: |pre| + |a| + 3 <= y < |pre| + |a| + 3 + |v| ==> !LabelAt(text, y, FieldRules[i].stop)
    ensures ExtractFields(text)[i].1 == v
  {
    var pat := FieldRules[i];
    assert RegexSearch(pat, text, NotFound) == v by {
      FieldRulesWellFormed();
      FieldRoundTrip(text, pre, a, v, b, post, pat.start, pat.stop, NotFound);
    }
    FieldItem(text, i);
  }

  /** The children count is the number of children patterns that match. */
  lemma ChildCountIs(text: string)
    ensures ChildCount(text) == (if Occurs(text, BoyRule) then 1 else 0) + (if Occurs(text, GirlRule) then 1 else 0)
  {
    ChildLabelsWellFormed();
    CountFoundIff(BoyLabel, text);
    CountFoundIff(GirlLabel, text);
  }

  /** `No. of Children` is the decimal form of the number of children lines that
      carry an age. */
  lemma ChildrenValue(text: string)
    ensures ExtractFields(text)[ChildrenIndex].1 ==
      NatToString((if Occurs(text, BoyRule) then 1 else 0) + (if Occurs(text, GirlRule) then 1 else 0))
  {
    ChildCountIs(text);
  }

  /** So `No. of Children` is a single digit from `0` to `2`. */
  lemma ChildrenDigit(text: string)
    ensures |ExtractFields(text)[ChildrenIndex].1| == 1
    ensures '0' <= ExtractFields(text)[ChildrenIndex].1[0] <= '2'
  {
    var n := ChildCount(text);
    SmallNatToString(n);
    assert ExtractFields(text)[ChildrenIndex].1 == NatToString(n);
  }

  /** The last two values are computed from the periods the work block lists. */
  lemma WorkItems(text: string)
    ensures ExtractFields(text)[WorkIndex].1 == WorkExperience(WorkEntries(text))
    ensures ExtractFields(text)[ExSingaporeIndex].1 == ExSingapore(WorkEntries(text))
  {
  }

  /** `Work Experience` is `"Not Found"` exactly when the work block lists no period. */
  lemma WorkNotFound(text: string)
    ensures ExtractFields(text)[WorkIndex].1 == NotFound <==> |WorkEntries(text)| == 0
  {
    WorkItems(text);
  }

  /** Otherwise `Work Experience` splits at `<br>` into one display line per period,
      in the order the periods appear. */
  lemma WorkLines(text: string)
    requires |WorkEntries(text)| > 0
    ensures |Split(ExtractFields(text)[WorkIndex].1)| == |WorkEntries(text)|
    ensures forall k :: 0 <= k < |WorkEntries(text)| ==>
      Split(ExtractFields(text)[WorkIndex].1)[k] == Format(WorkEntries(text)[k])
  {
    WorkItems(text);
    WorkExperienceSplits(WorkEntries(text));
  }

  /** `Ex-Singapore Status` is `"Yes"` exactly when some listed period is in
      Singapore, and `"No"` otherwise; a `"Yes"` always comes with work experience. */
  lemma ExSingaporeValue(text: string)
    ensures var es := WorkEntries(text);
      var flag := ExtractFields(text)[ExSingaporeIndex].1;
      && (flag == "Yes" || flag == "No")
      && (flag == "Yes" <==> exists k :: 0 <= k < |es| && es[k].country == Singapore)
      && (flag == "Yes" ==> ExtractFields(text)[WorkIndex].1 != NotFound)
  {
    var es := WorkEntries(text);
    WorkItems(text);
    ExSingaporeHasWork(es);
  }

  /** The work heading, or the employment heading, occurs nowhere in `text`. */
  predicate NoWorkHeadings(text: string) {
    || (forall p :: 0 <= p <= |text| ==> !LabelAt(text, p, WorkLabel))
    || (forall p :: 0 <= p <= |text| ==> !LabelAt(text, p, EmploymentLabel))
  }

  /** A form whose work section lists periods written out plainly between the work
      and employment headings, with blanks but no line break `g1` and `g2` around the
      list, gives back exactly those periods, provided the work heading does not occur
      earlier and the employment heading does not start inside the section. */
  lemma WorkReadsBack(text: string, pre: string, g1: string, es: seq<Entry>, g2: string, post: string)
    requires forall i :: 0 <= i < |es| ==> ValidEntry(es[i])
    requires Spaces(g1, 0, |g1|) && OneLine(g1) && Spaces(g2, 0, |g2|) && OneLine(g2)
    requires text == pre + (WorkLabel[0] + (g1 + (RenderAll(es) + (g2 + (EmploymentLabel[0] + post)))))
    requires forall p :: 0 <= p < |pre| ==> !LabelAt(text, p, WorkLabel)
    requires forall y :: |pre| + |WorkLabel[0]| <= y < |pre| + |WorkLabel[0]| + |g1 + (RenderAll(es) + g2)| ==>
      !LabelAt(text, y, EmploymentLabel)
    ensures WorkEntries(text) == es
  {
    var r := RenderAll(es);
    var c := g1 + (r + g2);
    assert text == pre + (WorkLabel[0] + (c + (EmploymentLabel[0] + post)));
    RenderAllPlain(es);
    OneLineConcat(r, g2);
    OneLineConcat(g1, r + g2);
    BlockRoundTrip(text, pre, WorkLabel[0], c, EmploymentLabel[0], post, WorkLabel, EmploymentLabel, "");
    StripPadded(g1, r, g2);
    FindAllRender(es);
  }

  /** For such a form, `Work Experience` and `Ex-Singapore Status` describe exactly
      the listed periods. */
  lemma WorkSectionReadsBack(text: string, pre: string, g1: string, es: seq<Entry>, g2: string, post: string)
    requires forall i :: 0 <= i < |es| ==> ValidEntry(es[i])
    requires Spaces(g1, 0, |g1|) && OneLine(g1) && Spaces(g2, 0, |g2|) && OneLine(g2)
    requires text == pre + (WorkLabel[0] + (g1 + (RenderAll(es) + (g2 + (EmploymentLabel[0] + post)))))
    requires forall p :: 0 <= p < |pre| ==> !LabelAt(text, p, WorkLabel)
    requires forall y :: |pre| + |WorkLabel[0]| <= y < |pre| + |WorkLabel[0]| + |g1 + (RenderAll(es) + g2)| ==>
      !LabelAt(text, y, EmploymentLabel)
    ensures ExtractFields(text)[WorkIndex].1 == WorkExperience(es)
    ensures ExtractFields(text)[ExSingaporeIndex].1 == ExSingapore(es)
  {
    WorkReadsBack(text, pre, g1, es, g2, post);
    WorkItems(text);
  }

  /** Without both headings the work block is empty and lists no period. */
  lemma NoWorkBlockNoEntries(text: string)
    requires NoWorkHeadings(text)
    ensures WorkEntries(text) == []
  {
    var block := RegexSearch(WorkRule, text, "");
    if forall p :: 0 <= p <= |text| ==> !LabelAt(text, p, WorkLabel) {
      NoStartLabelGivesDefault(WorkRule, text, "");
    } else {
      NoEndLabelGivesDefault(WorkLabel, EmploymentLabel, text, "");
    }
    assert block == "";
  }

  /** Without both headings there is no work experience and no Singapore period. */
  lemma NoWorkBlock(text: string)
    requires NoWorkHeadings(text)
    ensures ExtractFields(text)[WorkIndex].1 == NotFound
    ensures ExtractFields(text)[ExSingaporeIndex].1 == "No"
  {
    NoWorkBlockNoEntries(text);
    WorkItems(text);
  }

  /** The values for a text that carries none of the labels a pattern starts with. */
  const DefaultValues: seq<string> :=
    [ NotFound, NotFound, NotFound, NotFound, NotFound, NotFound, NotFound, NotFound,
      "0", NotFound, "No" ]

  /** Every pattern the extractor searches the text for. */
  const AllRules: seq<Pattern> := FieldRules + [BoyRule, GirlRule, WorkRule]

  /** No pattern's start label occurs anywhere in `text`. */
  predicate NoStartLabel(text: string) {
    forall k, p :: 0 <= k < |AllRules| && 0 <= p <= |text| ==> !LabelAt(text, p, AllRules[k].start)
  }

  lemma NoLabelsDefaultValues(text: string)
    requires NoStartLabel(text)
    ensures Values(text) == DefaultValues
  {
    var found := SearchEach(FieldRules, text);
    forall i | 0 <= i < |FieldRules|
      ensures found[i] == NotFound
    {
      assert AllRules[i] == FieldRules[i];
      NoStartLabelGivesDefault(FieldRules[i], text, NotFound);
    }
    assert AllRules[8] == BoyRule && AllRules[9] == GirlRule && AllRules[10] == WorkRule;
    NoStartLabelGivesDefault(BoyRule, text, "");
    NoStartLabelGivesDefault(GirlRule, text, "");
    NoStartLabelGivesDefault(WorkRule, text, "");
    assert WorkEntries(text) == [];
    assert ChildCount(text) == 0;
  }

  /** A text without any starting label yields every default. */
  lemma NoLabelsGiveDefaults(text: string)
    requires NoStartLabel(text)
    ensures ExtractFields(text) == Zip(Keys, DefaultValues)
  {
    NoLabelsDefaultValues(text);
  }
}
