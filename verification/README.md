# Helper biodata parser — a Dafny model of the field extractor

The helper biodata parser takes the text of a maid-agency biodata PDF and returns a
dictionary of eleven values:

- eight label-bounded fields: name, birthplace and date of birth, age, gender,
  education, religion, language and marital status;
- the number of children;
- the work experience, one display line per period, joined with `<br>`;
- the Ex-Singapore status.

This project models the pipeline that produces those values:

- the whitespace collapse applied to the page texts;
- `regex_search`, which returns the stripped first capture of a case-insensitive
  `re.search`, or a default;
- `extract_fields`, which runs eleven searches, counts the children lines, lists the
  work periods with `re.findall`, formats them and sets the flag.

The project also proves properties of each part.

Modules, in dependency order:

- `Wrappers`: `Option`.
- `Chars`: Python's whitespace set (`str.isspace`) and `IGNORECASE` character
  comparison, `\s*` as `SkipSpaces`, and `str.strip()` as `Strip`.
- `Normalize`: `re.sub(r"\s+", " ", text)` as the function `Collapse`, plus a
  single-pass method that computes it. Also the concatenation of the page texts.
- `Numbers`: `int(s)` on digit strings and `str(n)` on integers.
- `Patterns`: the three regular-expression shapes the extractor uses, each a
  dedicated scanner:
  - `Field(L, E)` for `L\s*:\s*(.*?)\s*E`;
  - `Count(L)` for `L\s*:?\s*AGE UMUR\s*:\s*(\d+)`;
  - `Block(L, E)` for `L(.*?)E`.

  It also models `re.search` as the leftmost position where a match starts, and
  `regex_search` on top of it. Each shape is also given as a language (`Shaped`),
  independent of the scan. The scanners are proved to find a match exactly when
  the language has one, and the leftmost one. As in Python, `.` is any
  character but a line feed, so the searches are modelled on any text, collapsed or not.
- `Work`: `re.findall` of `(INDONESIAN|SINGAPORE)\s+(\d{4})\s*Y\s*-\s*(\d{4})\s*Y`,
  the display line of a period, the `<br>` join and the Singapore flag. Each has a
  partner: the period regex as a language (`PeriodShaped`), a parser for display
  lines, `split("<br>")`, and a renderer of periods that `findall` reads back.
- `Fields`: the label table and `extract_fields`. The dictionary is a sequence of
  `(Key, value)` items in insertion order.

## Model

| member | source | states |
|---|---|---|
| Normalize.Collapse | parse_biodata.py:13 | The substitution never lengthens the text and empties only the empty text. It starts with a space exactly when the text starts with whitespace, and keeps a first non-whitespace character. It ends with a space exactly when the text ends with whitespace. |
| Normalize.CollapseIsCollapsed | parse_biodata.py:13 | After the substitution, every whitespace character is a single `' '` not followed by more whitespace. |
| Normalize.CollapsedIff | parse_biodata.py:13 | The recursive definition of collapsed text agrees with the positional one: every whitespace is a space, and no two whitespace characters are adjacent. |
| Normalize.CollapseFixpointIff | parse_biodata.py:13 | The substitution leaves a text unchanged exactly when the text is already collapsed. |
| Normalize.CollapseIdempotent | parse_biodata.py:13 | Applying the substitution twice gives the same text as applying it once. |
| Normalize.CollapseRun | parse_biodata.py:13 | A whitespace run between two non-whitespace boundaries becomes exactly one space, and the two sides are collapsed independently. |
| Normalize.CollapseKeepsText | parse_biodata.py:13 | The non-whitespace characters survive unchanged and in order. |
| Normalize.CollapseWhitespace | parse_biodata.py:13 | A single left-to-right pass over the runs computes the substitution. |
| Normalize.ExtractText | parse_biodata.py:10-13 | The document text is the collapse of the page texts appended in order, and it is collapsed. |
| Chars.IsSpaceAscii | parse_biodata.py:13-17 | The whitespace of `\s` and `str.strip()`: among ASCII characters, exactly blank, tab, line feed, vertical tab, form feed, carriage return and U+001C to U+001F. No digit or letter is whitespace. |
| Chars.SameIgnoringCaseAscii | parse_biodata.py:16 | Under `re.IGNORECASE` an upper-case ASCII letter of a pattern matches itself and its lower case. The only other matches are `İ` and `ı` for `I`, the Kelvin sign for `K` and `ſ` for `S`. |
| Chars.SkipSpaces | parse_biodata.py:21 | Greedy `\s*`: the characters skipped are whitespace, and the character it stops at is not. |
| Chars.SkipSpacesUnique | parse_biodata.py:21 | A whitespace run that ends before a non-whitespace character (or at the end) ends where the greedy `\s*` does. |
| Chars.Strip | parse_biodata.py:17 | `.strip()` gives a trimmed text obtained from the input by removing only whitespace at both ends. |
| Chars.StripTrimmed | parse_biodata.py:17 | `.strip()` leaves a trimmed text unchanged. |
| Patterns.LabelAtIff | parse_biodata.py:21-28 | A label occurs at a position exactly when one of its spellings (`,?` and `A?` give two) occurs there, ignoring case. |
| Patterns.LazyEndSpec | parse_biodata.py:21-28 | Lazy `(.*?)`: the capture ends at the first place where the end label closes it, and crosses no newline. When it fails, no newline-free extension closes. |
| Patterns.FieldRestIff | parse_biodata.py:21-28 | After a field label, the scanner succeeds exactly when `\s*:\s*(.*?)\s*E` can match there. |
| Patterns.CountRestIff | parse_biodata.py:31-32 | After a children label, the scanner succeeds exactly when `\s*:?\s*AGE UMUR\s*:\s*(\d+)` can match there. |
| Patterns.BlockRestIff | parse_biodata.py:39 | After the work heading, the scanner succeeds exactly when `(.*?)EMPLOYMENT HISTORY` can match there. |
| Patterns.MatchRestIff | parse_biodata.py:21-39 | The scanner for each pattern shape succeeds exactly when the rest of the pattern matches. |
| Patterns.TryFromIff | parse_biodata.py:21-28 | Trying the start label's spellings in order from any index succeeds exactly when one of them is followed by a match. |
| Patterns.TryAtIff | parse_biodata.py:21-39 | The pattern matches at a position exactly when some match of it starts there. |
| Patterns.Search | parse_biodata.py:16 | `re.search` tries positions 0 to `len(text)` in order. The result is the first position where the attempt succeeds, with that attempt's capture, or nothing when every attempt fails. |
| Patterns.FirstMatch | parse_biodata.py:16 | The scan returns the first position that matched, with its capture. It returns nothing exactly when no position matched. |
| Patterns.SearchIsLeftmost | parse_biodata.py:16 | `re.search` finds nothing exactly when no match starts anywhere. Otherwise it returns a match at the leftmost position where one starts, with the capture the backtracking order gives there. |
| Patterns.SearchCapture | parse_biodata.py:16 | The capture has its pattern's shape. A field value is trimmed, has no line break and contains no end label. A count is a non-empty run of digits. A block has no line break and no end label. |
| Patterns.RegexSearch | parse_biodata.py:15-17 | With no match the result is the default. With a match it is the capture with whitespace removed at both ends, and trimmed. |
| Patterns.RegexSearchFound | parse_biodata.py:17 | For a field or count pattern the capture is already stripped, so `regex_search` returns it unchanged. |
| Patterns.NoStartLabelGivesDefault | parse_biodata.py:15-17 | When the start label occurs nowhere, the result is the default. |
| Patterns.NoEndLabelGivesDefault | parse_biodata.py:39 | When the end label of the work block occurs nowhere, the result is the default. |
| Patterns.FieldRoundTrip | parse_biodata.py:21-28 | A text written as label, `" : "`, a trimmed one-line value, a space and the end label gives that value back. This holds when the label does not occur earlier and the end label does not start inside the value. |
| Patterns.BlockRoundTrip | parse_biodata.py:39 | A text written as heading, a one-line block and end heading gives the stripped block back, under the same conditions. |
| Patterns.CountFoundIff | parse_biodata.py:31-34 | The children search returns a non-empty string exactly when the children pattern matches somewhere. |
| Numbers.NatToString | parse_biodata.py:36 | `str(n)` is canonical (no leading zero) and reads back as `n`. |
| Numbers.NatToStringOfValue | parse_biodata.py:36 | `str(int(s)) == s` for every canonical digit string. |
| Numbers.SmallNatToString | parse_biodata.py:33-36 | A count from 0 to 2 is written as a single digit from `0` to `2`. |
| Numbers.IntToStringRoundTrip | parse_biodata.py:48-51 | `int(str(i)) == i` for every integer, negatives included. |
| Work.CountryAt | parse_biodata.py:40 | The country alternative matches only where its word is written exactly (case-sensitive). |
| Work.CountryAtWord | parse_biodata.py:40 | Where a country word is written, the alternative recognises that country. |
| Work.EntryAtIff | parse_biodata.py:40 | The scanner returns a period and an end exactly when the text from the position matches `(INDONESIAN\|SINGAPORE)\s+(\d{4})\s*Y\s*-\s*(\d{4})\s*Y` with those groups, ending there. It returns nothing exactly when no period and end match. |
| Work.EntryAtSound | parse_biodata.py:40 | What the scanner finds is a match of the period regex. |
| Work.EntryAtComplete | parse_biodata.py:40 | Every match of the period regex at a position is what the scanner finds there. |
| Work.FindAll | parse_biodata.py:40 | Every period found has two four-digit years. |
| Work.FindAllRender | parse_biodata.py:40 | `findall` over periods written one after another finds exactly those periods, in order. |
| Work.Duration | parse_biodata.py:47-48 | `int(end) - int(start)` of two four-digit years lies strictly between -10000 and 10000. |
| Work.ParseFormat | parse_biodata.py:44-51 | Every display line `start-end (years yrs) - Country` parses back to its period and its duration. |
| Work.Format | parse_biodata.py:51 | A display line contains no `<`, so it cannot contain the `<br>` separator. |
| Work.Join | parse_biodata.py:53 | `"<br>".join` of no lines is empty. Otherwise it starts with the first line and its length is the lines' total length plus one separator between each two neighbours. |
| Work.SplitJoin | parse_biodata.py:53 | Splitting the `<br>` join of separator-free lines at `<br>` gives the lines back. |
| Work.FormatAllLines | parse_biodata.py:44-51 | The list of display lines has, at each index, the display line of the period at that index. |
| Work.WorkExperienceSplits | parse_biodata.py:53 | The work-experience value of at least one period splits into exactly one display line per period, in order. |
| Work.WorkExperience | parse_biodata.py:53 | The work-experience value is `"Not Found"` exactly when no period was found. |
| Work.AnySingapore | parse_biodata.py:43-46 | The flag loop sets the flag exactly when some period's country is Singapore. |
| Work.ExSingapore | parse_biodata.py:54 | The status is `"Yes"` or `"No"`. It is `"Yes"` exactly when some period's country is Singapore. |
| Work.ExSingaporeHasWork | parse_biodata.py:53-54 | A `"Yes"` flag always comes with a work-experience value other than `"Not Found"`. |
| Fields.ChildCount | parse_biodata.py:31-35 | The children count is at most two. |
| Fields.ChildCountIs | parse_biodata.py:31-35 | The children count is the number of the two children patterns (boy, girl) that match somewhere in the text. |
| Fields.ChildrenValue | parse_biodata.py:30-36 | The `No. of Children` value is the decimal form of the number of matching children lines. |
| Fields.ChildrenDigit | parse_biodata.py:36 | The `No. of Children` value is one digit from `0` to `2`. |
| Fields.WorkEntries | parse_biodata.py:39-40 | The periods listed from the work block all have two four-digit years. |
| Fields.ExtractFields | parse_biodata.py:19-56 | The result holds the eleven keys once each, in the order the extractor inserts them. |
| Fields.KeysDistinct | parse_biodata.py:20-54 | No key is stored twice, and distinct keys have distinct texts. |
| Fields.FieldValue | parse_biodata.py:21-28 | Each label-bounded value is `"Not Found"` when its pattern matches nowhere. Otherwise it is the capture of the leftmost match: trimmed, on one line and free of its end label. |
| Fields.FieldSearchValue | parse_biodata.py:15-17 | The same statement for any label-bounded pattern with `"Not Found"` as the default. |
| Fields.FieldReadsBack | parse_biodata.py:21-28 | A form that writes a field as label, colon, value and next label yields that value for the field's key. |
| Fields.WorkNotFound | parse_biodata.py:53 | `Work Experience` is `"Not Found"` exactly when the work block lists no period. |
| Fields.WorkLines | parse_biodata.py:42-53 | Otherwise `Work Experience` splits at `<br>` into the display lines of the listed periods, in order. |
| Fields.ExSingaporeValue | parse_biodata.py:43-54 | `Ex-Singapore Status` is `"Yes"` or `"No"`. It is `"Yes"` exactly when some listed period is in Singapore, and a `"Yes"` comes with work experience. |
| Fields.WorkReadsBack | parse_biodata.py:39-40 | A work section whose periods are written out between the work and employment headings lists exactly those periods. Blanks without a line break may stand on either side of the list. |
| Fields.WorkSectionReadsBack | parse_biodata.py:39-54 | For such a form, `Work Experience` and `Ex-Singapore Status` are computed from exactly the written periods. |
| Fields.NoWorkBlockNoEntries | parse_biodata.py:39-40 | Without both headings, the work block is empty and lists no period. |
| Fields.NoWorkBlock | parse_biodata.py:39-54 | Without both headings, `Work Experience` is `"Not Found"` and `Ex-Singapore Status` is `"No"`. |
| Fields.NoLabelsDefaultValues | parse_biodata.py:19-56 | A text with none of the starting labels gives the default for every value: `"Not Found"`, `"0"` children and `"No"`. |
| Fields.NoLabelsGiveDefaults | parse_biodata.py:19-56 | The whole dictionary for such a text is the eleven keys with their defaults. |

## Left out

- The Flask application, its upload route and the HTML templates (parse_biodata.py:1-5 and from line 58): web I/O, not extraction logic.
- Opening the PDF and reading each page's text with PyMuPDF (parse_biodata.py:9-12): a foreign library. `Normalize.ExtractText` takes the page texts as a parameter.
- The `"?"` fallback of the duration (parse_biodata.py:49-50): it is unreachable, because both captures of `\d{4}` are strings of decimal digits and `int()` accepts every such string.
- Python's regular-expression engine in general. Only the four pattern shapes the extractor uses are modelled, each by a scanner proved equivalent to its pattern's language, with backtracking order where it matters (the spelling tried first, the lazy capture and the greedy whitespace).
- Unicode digits: `\d` is modelled as the ASCII digits `0`-`9` only. Python's `\d` also accepts other Unicode decimal digits.
- Case-insensitive matching is modelled only as far as the labels need it, since every label is upper-case ASCII. The model covers ASCII letters plus the equivalences Python adds for them: dotless `ı` with `i`, long `ſ` with `s`, `İ` lowering to `i` and the Kelvin sign to `k`.
- The text normalisation does not strip the result: parse_biodata.py:13 only substitutes, and the model follows the code.
- Fields.FieldValue: does not say the value is `"Not Found"` only when nothing matches. A form can itself write `Not Found` as a value, so the lemma states both cases (no match gives the default, a match gives the capture) instead.
- Fields.WorkReadsBack: needs the employment heading not to start anywhere between the work heading and the employment heading that closes the list. Country words, years and blanks cannot spell it, but the proof does not derive this. The layout it covers is the plain one `COUNTRY yyyy Y - yyyy Y`, one space apart; other whitespace inside a period is covered by `Work.EntryAtIff`, not by this lemma.
- Fields.WorkSectionReadsBack: needs the same conditions as `Fields.WorkReadsBack`.
- The dictionary is modelled as its items in insertion order, not as a hash map.
