# BORME crawler: text-extraction core in Dafny

This project models the part of the BORME crawler that turns the plain text of one bulletin
PDF of the *Boletín Oficial del Registro Mercantil* ("Actos inscritos" section) into act
records, and proves what that pipeline does:

- **Boilerplate stripping** (`TextFiltering`, `Crawler`): `drop_lines_with_pattern` splits the
  text on line breaks, drops every line in which a pattern matches, counts the dropped lines and
  rejoins the rest; `drop_pattern` deletes every occurrence of a literal pattern and counts them.
  A count that differs from the expected one is returned as a mismatch flag (the source logs a
  warning). `drop_headers_and_footnotes` runs five line rules in a fixed order (final footnote
  once, then header, subheader and the two footnotes once per page) in a loop that reassigns the
  text, then removes the section title and strips the result; it is an imperative method proved
  against the function `CleanText`.
- **Region isolation and segmentation** (`Crawler`): the region name is the first line of the
  cleaned text and its first occurrence is removed; `split_text_by_acts` splits the rest at the
  capturing marker `\n<digits> - <CAPITALS>` (a hand-written greedy matcher), drops empty
  fragments, fails its assertion when their number is odd, and pairs each fragment at an even
  index with the next one.
- **Act parsing** (`Crawler.ParseAct`): strip, split into lines, split the first line at its
  first `-` into id and company name (stripped, then every `.` removed), the other lines as the
  description, the date as `YYYY-MM-DD`.
- **Helpers** (`TypeCasting`, `Dates`, `BormeWebsite`): `cast_str_to_date` for `YYYYMMDD`,
  `uniq_dates_in_list`, `flatten` (`sum(x, [])`, a left fold), and the daily index URL.

`CrawlerExamples` works the segmentation and act parsing through small bulletin texts, each
given as its pieces, with the general lemmas behind them (two headings give two acts; a missing
line break before the first heading leaves three fragments).

The Python string primitives the code relies on (`split`, `join`, `strip`, `replace`, `find`)
are defined in `Strings` with their own contracts; `datetime.date` and `strftime` padding are in
`Dates`.

Some behaviours of the code are easy to misread; the model keeps each of them:

- `split_text_by_acts("1 - FOO\nalpha\n2 - BAR\nbeta")` does not give two acts. The marker
  requires a line break before the digits, so the first heading is not a marker, three
  non-empty fragments remain and the assertion fails (`Crawler.SplitTextByActsFails`,
  `CrawlerExamples.SegmentUnledExample`). In the pipeline the region line is removed first, so
  the acts text does start with a line break.
- The leading fragment before the first marker is not discarded: it is paired with the first
  marker when the count is even (so the concatenation of the acts is always the whole text,
  `Crawler.SplitTextByActs`), and makes the assertion fail otherwise.
- A block whose first line has no `-` is not skipped: unpacking the split raises, which aborts
  the whole PDF. `Crawler.ParseActs` returns the failure of the first such block for the whole
  list. A line such as `no-separator-line` does contain a `-` and parses, with id `no`.
- The company name is stripped before its dots are removed, so a name ending in `" ."` keeps a
  trailing space (`Crawler.CompanyNameTrailingSpace`); that it has no whitespace at its ends is
  proved only when the stripped name neither starts nor ends with a dot
  (`Crawler.CompanyNameTrimmed`).

The marker split is pinned down independently of the matcher's search: `Crawler.CutAtMarkers`
describes a cut of the text in which the even parts contain no position where a marker starts,
and every odd part is the marker that starts right after the part before it.
`Crawler.SplitOnMarkersCuts` and `Crawler.CutAtMarkersUnique` prove that the split is that cut,
and the only one. So "one act per marker" means one act per marker match in the text.
Likewise `TextFiltering.Deletion` describes the removal of a literal pattern as the gaps between
its leftmost non-overlapping occurrences, with no occurrence starting inside a gap.

## Model

| member | source | states |
|---|---|---|
| `Strings.Split` | src/borme/utils/text_filtering.py:23 | `str.split` on one character: at least one part, none containing the separator |
| `Strings.Join` | src/borme/utils/text_filtering.py:34 | `"\n".join`: no parts give the empty text; otherwise the first part begins the result and, when more follow, the separator comes right after it |
| `Strings.JoinSplit` | src/borme/utils/text_filtering.py:23-34 | joining the parts of a split with the same separator gives back the text |
| `Strings.SplitJoin` | src/borme/utils/text_filtering.py:23-34 | splitting a join of separator-free parts gives back the parts |
| `Strings.FirstLine` | src/borme/crawler.py:128 | the first line holds no line break and is the whole text or the prefix up to the first line break |
| `Strings.SplitFirstRest` | src/borme/crawler.py:95-102 | first line, line break and the rejoined other lines make up the text |
| `Strings.SplitOnce` | src/borme/crawler.py:97 | `split("-", 1)` unpacked: None exactly when there is no `-`; otherwise a `-`-free head, the `-`, and the tail are the line |
| `Strings.Strip` | src/borme/crawler.py:63 | the result has no whitespace at either end and is the slice of the input between leading and trailing whitespace |
| `Strings.StripIdempotent` | src/borme/crawler.py:95 | stripping twice is stripping once |
| `Strings.RemoveChar` | src/borme/crawler.py:98 | `replace(".", "")`: no `.` is left and nothing is added |
| `Strings.RemoveCharCounts` | src/borme/crawler.py:98 | every character other than the removed one is kept as often as it occurs |
| `Strings.RemoveCharAppend` | src/borme/crawler.py:98 | removing a character distributes over concatenation |
| `Strings.Find` | src/borme/crawler.py:129 | the first index at or after the start where the pattern occurs, none before it; None when it occurs nowhere |
| `Strings.ReplaceFirst` | src/borme/crawler.py:129 | `replace(x, "", 1)`: the text with its first occurrence of `x` cut out, or unchanged when there is none |
| `Strings.ReplacePrefix` | src/borme/crawler.py:129 | when the text starts with `x`, replacing its first occurrence removes that prefix |
| `TextFiltering.KeepLines` | src/borme/utils/text_filtering.py:24 | every kept line fails the pattern and is an input line |
| `TextFiltering.KeepLinesCounts` | src/borme/utils/text_filtering.py:24 | each non-matching line is kept as often as it occurs, no matching line is kept |
| `TextFiltering.KeepLinesInOrder` | src/borme/utils/text_filtering.py:24 | the kept lines are a subsequence of the input lines, in their original order |
| `TextFiltering.KeepLinesAll` | src/borme/utils/text_filtering.py:24 | all lines are kept exactly when none matches |
| `TextFiltering.DropLinesWithPattern` | src/borme/utils/text_filtering.py:15-36 | a mismatch is reported exactly when the count differs from the expected one; the count is at most the number of lines |
| `TextFiltering.DropLinesLines` | src/borme/utils/text_filtering.py:23-34 | the lines of the result are exactly the non-matching input lines in order (an empty text when none is left) |
| `TextFiltering.KeepLinesCount` | src/borme/utils/text_filtering.py:24-27 | kept lines plus matching lines are all the lines |
| `TextFiltering.DropLinesCount` | src/borme/utils/text_filtering.py:27 | the count is the number of matching input lines and input lines minus result lines; the text is returned whatever the expected count |
| `TextFiltering.DropLinesNoMatch` | src/borme/utils/text_filtering.py:24-36 | the count is 0 exactly when no line matches, and then the text comes back unchanged |
| `TextFiltering.DropLinesIdempotent` | src/borme/utils/text_filtering.py:23-34 | a second pass with the same pattern returns the same text and drops no line (one only if an empty text's empty line matches) |
| `TextFiltering.RemoveOccurrences` | src/borme/utils/text_filtering.py:47-50 | left-to-right non-overlapping deletion: the result is shorter by the count times the pattern length (its contents are fixed by `DeletionRemoves`) |
| `TextFiltering.RemoveOccurrencesNone` | src/borme/utils/text_filtering.py:50 | no occurrence is counted exactly when the pattern occurs nowhere |
| `TextFiltering.RemoveOccurrencesUnchanged` | src/borme/utils/text_filtering.py:47 | with no occurrence counted the text is unchanged |
| `TextFiltering.DeletionExists` | src/borme/utils/text_filtering.py:47-50 | every text splits into gaps around leftmost non-overlapping occurrences of the pattern, with no occurrence starting inside a gap |
| `TextFiltering.DeletionRemoves` | src/borme/utils/text_filtering.py:47-50 | for any such decomposition, the deletion leaves exactly the gaps concatenated and counts one occurrence between each two gaps |
| `TextFiltering.DropPattern` | src/borme/utils/text_filtering.py:39-56 | mismatch exactly when the count differs from the expected one; length is input length minus count times pattern length; zero occurrences return the input unchanged |
| `TextFiltering.DropPatternDeletes` | src/borme/utils/text_filtering.py:39-56 | the returned text is the concatenated gaps between the leftmost non-overlapping occurrences, and the count is their number |
| `TextFiltering.DropLinesExample` | src/borme/utils/text_filtering.py:15-36 | two `ABC` lines with two expected give `x\ny\nz` and no mismatch |
| `TextFiltering.DropPatternExample` | src/borme/utils/text_filtering.py:39-56 | `title title` with one expected gives `" "`, count 2 and a mismatch |
| `Dates.DaysInMonth` | src/borme/utils/type_casting.py:24 | 28 to 31 days; February has 29 exactly in leap years |
| `Dates.ParseInt` | src/borme/utils/type_casting.py:24 | `int()` on ASCII digits: a value exactly for a non-empty digit string, and that value is the decimal reading |
| `Dates.Pad` | src/borme/crawler.py:108 | zero padding as `strftime` writes a field: exactly `width` characters, all digits (read back by `PadValue`) |
| `Dates.PadValue` | src/borme/crawler.py:108 | reading back a zero-padded number gives the number |
| `Dates.ValuePad` | src/borme/utils/type_casting.py:20-24 | padding the value of a digit string to its length gives the string back |
| `Dates.FormatDate` | src/borme/crawler.py:108 | `strftime("%Y-%m-%d")`: ten characters, separators at 4 and 7, digit fields whose values are year, month and day |
| `Dates.FormatDateInjective` | src/borme/utils/borme_website.py:32 | different valid dates are formatted differently |
| `TypeCasting.CastStrToDate` | src/borme/utils/type_casting.py:15-27 | None for a length other than 8; a result is a valid date with the values of characters 0-4, 4-6, 6-8; a valid digit string always gives one |
| `TypeCasting.CastStrToDateReads` | src/borme/utils/type_casting.py:15-27 | a string that casts to a date is a valid date's eight-digit form |
| `TypeCasting.CastStrToDateAccepts` | src/borme/utils/type_casting.py:15-27 | a valid date's eight-digit form casts to that date |
| `TypeCasting.CastStrToDateRoundTrip` | src/borme/utils/type_casting.py:15-27 | a string casts to a date exactly when it is that valid date's eight-digit form |
| `TypeCasting.CastDates` | src/borme/utils/type_casting.py:36 | a date is kept exactly when some input casts to it; no more dates than inputs |
| `TypeCasting.CastDatesAppend` | src/borme/utils/type_casting.py:36 | the successful casts of two input lists are those of each list in turn, so every input keeps its place and its multiplicity |
| `TypeCasting.CastDatesDuplicates` | src/borme/utils/type_casting.py:36-42 | the cast list repeats a date exactly when two inputs at different positions cast to the same date |
| `TypeCasting.DistinctCount` | src/borme/utils/type_casting.py:39-42 | the set of a list is no larger than the list, and equally large exactly when nothing repeats |
| `TypeCasting.UniqDatesInList` | src/borme/utils/type_casting.py:30-45 | a date is in the result exactly when some input casts to it; no more dates than inputs; the warning fires exactly when two inputs at different positions cast to the same date |
| `TypeCasting.Flatten` | src/borme/utils/type_casting.py:48-56 | the length is the sum of the sublist lengths |
| `TypeCasting.FlattenAppend` | src/borme/utils/type_casting.py:56 | flattening distributes over concatenation of the outer list |
| `TypeCasting.FlattenAt` | src/borme/utils/type_casting.py:56 | element j of list i sits right after the elements of the lists before i, so the order is kept |
| `BormeWebsite.ConstructBormeDailyUrl` | src/borme/utils/borme_website.py:26-33 | length 55, the fixed prefix and suffix, and `YYYY/MM/DD` in between with zero-padded fields holding the date's values |
| `BormeWebsite.DailyUrlInjective` | src/borme/utils/borme_website.py:26-33 | distinct dates give distinct URLs |
| `Crawler.Report` | src/borme/utils/text_filtering.py:28-31 | at most one diagnostic, present exactly when the count differs from the expected one |
| `Crawler.LineRules` | src/borme/crawler.py:37-55 | five rules: the final footnote expected once, then header, subheader and the two footnotes expected once per page |
| `Crawler.Step` | src/borme/crawler.py:56-58 | one loop iteration adds at most one diagnostic |
| `Crawler.ApplyLineRules` | src/borme/crawler.py:48-58 | the rules append at most one diagnostic each, after the earlier ones, each a true mismatch |
| `Crawler.CleanText` | src/borme/crawler.py:28-63 | the cleaned text has no whitespace at its ends; at most six diagnostics, each a true mismatch |
| `Crawler.CleanTextReports` | src/borme/crawler.py:36-63 | the cleaned text is the stripped output of the five line rules and the section title; the diagnostics are the six reports in rule order, each on the text the rules before it left |
| `Crawler.CleanTextDiagnosed` | src/borme/crawler.py:36-63 | a diagnostic is present exactly when it names a rule whose count on that text is not the expected one, and carries that count |
| `Crawler.LineRulesOrder` | src/borme/crawler.py:37-58 | the rules run final footnote, header, subheader, footnote 1, footnote 2, each on the previous output, expecting 1 and then the page count |
| `Crawler.ApplyLineRulesClears` | src/borme/crawler.py:48-58 | after the rules, no remaining line matches any rule applied so far |
| `Crawler.LineRulesClear` | src/borme/crawler.py:48-58 | no line left by the five line rules matches any of the five patterns |
| `Crawler.DropHeadersAndFootnotes` | src/borme/crawler.py:28-63 | the loop computes `CleanText`: line rules in order, then the section title, then strip; the result has no edge whitespace |
| `Crawler.MarkerEnd` | src/borme/crawler.py:73 | a match starting at `i` ends after `i` and within the text |
| `Crawler.MarkerEndCorrect` | src/borme/crawler.py:73 | the greedy matcher ends at `e` exactly when the text from `i` to `e` is a marker that no further capital extends |
| `Crawler.MarkerEndNone` | src/borme/crawler.py:73 | the matcher finds nothing exactly when no marker starts there |
| `Crawler.NextMarker` | src/borme/crawler.py:76 | the leftmost marker at or after the start, with no match before it; None when there is none |
| `Crawler.SplitOnMarkers` | src/borme/crawler.py:76 | `re.split` with a capturing group: an odd number of parts whose odd-indexed parts are markers |
| `Crawler.SplitOnMarkersConcat` | src/borme/crawler.py:76 | the parts concatenated give back the text |
| `Crawler.SplitOnMarkersCuts` | src/borme/crawler.py:76 | the split is a cut at the markers: no marker starts inside an even part, end of text included, and each odd part is the marker starting right after the part before it |
| `Crawler.CutAtMarkersUnique` | src/borme/crawler.py:76 | any cut at the markers is the split, so it cuts at every leftmost non-overlapping marker match |
| `Crawler.Evens` | src/borme/crawler.py:82 | `[0::2]`: half the length rounded up, element k is element 2k |
| `Crawler.Odds` | src/borme/crawler.py:83 | `[1::2]`: half the length rounded down, element k is element 2k+1 |
| `Crawler.DropEmpty` | src/borme/crawler.py:78 | the non-empty elements: length minus the number of empty ones, each non-empty and from the input |
| `Crawler.DropEmptyConcat` | src/borme/crawler.py:78 | dropping empty strings keeps the concatenation |
| `Crawler.DropEmptyAppend` | src/borme/crawler.py:78 | dropping empty strings distributes over concatenation, so the kept fragments keep their input order and multiplicity |
| `Crawler.CountEmptyStrides` | src/borme/crawler.py:78-83 | the empty strings split between the two strides |
| `Crawler.Pairs` | src/borme/crawler.py:85 | act k is even element k followed by odd element k |
| `Crawler.PairsConcat` | src/borme/crawler.py:82-85 | pairing neighbours keeps the concatenation |
| `Crawler.SplitTextByActs` | src/borme/crawler.py:66-87 | fails exactly when the number of non-empty fragments is odd; otherwise the acts concatenated are the input and none is empty |
| `Crawler.SplitTextByActsEmpty` | src/borme/crawler.py:76-87 | an empty text gives no acts |
| `Crawler.SplitTextByActsFails` | src/borme/crawler.py:78-84 | the assertion fails exactly when an even number of the fragments around the markers are empty |
| `Crawler.SplitTextByActsWellFormed` | src/borme/crawler.py:73-85 | with the text starting at a marker and no empty gap, one act per marker match, in order, act k being marker k and the text up to the next marker |
| `Crawler.ParseAct` | src/borme/crawler.py:90-110 | fails exactly when the stripped first line has no `-`; the id is that line before its first `-`; the name has no `.`; region passed through; date is `YYYY-MM-DD` |
| `Crawler.ParseActDescription` | src/borme/crawler.py:95-102 | first line, line break and description make up the stripped block; a one-line block has an empty description |
| `Crawler.ParseActFirstLine` | src/borme/crawler.py:95-98 | a first line `id-rest` with no `-` in `id` gives that id and the stripped, dot-free rest |
| `Crawler.CompanyNameTrimmed` | src/borme/crawler.py:98 | the company name has no edge whitespace when the stripped name neither starts nor ends with a dot |
| `Crawler.CompanyNameTrailingSpace` | src/borme/crawler.py:98 | a name ending in `" ."` keeps a trailing space, because strip runs before dot removal |
| `Crawler.ParseMarkerBlock` | src/borme/crawler.py:95-97 | a block starting with a marker parses, with the marker's number and the following space as id |
| `Crawler.FirstFailure` | src/borme/crawler.py:133 | all values in order when every result succeeds; otherwise the first failure and its index |
| `Crawler.ParseEach` | src/borme/crawler.py:133 | one result per block, result k being the parse of block k |
| `Crawler.ParseActs` | src/borme/crawler.py:133 | succeeds exactly when every block parses, and then record k is block k's parse |
| `Crawler.ParseActsFailure` | src/borme/crawler.py:133 | a failure names the first block without a `-`, every earlier block parsing |
| `Crawler.RegionIsolation` | src/borme/crawler.py:128-129 | region plus acts text is the cleaned text; the region has no line break; the acts text is empty or starts with a line break |
| `Crawler.ExtractActs` | src/borme/crawler.py:126-133 | a split failure is passed on; a successful split gives the parse of its blocks (`ParseActs`: record k is block k's act, or the first malformed block fails); every record carries the region name, the formatted date and a dot-free name |
| `Crawler.ExtractBlocksConcat` | src/borme/crawler.py:128-132 | region name followed by all blocks is the cleaned text |
| `Crawler.ExtractActsWellFormed` | src/borme/crawler.py:126-133 | with well-formed markers, one record per marker in order, record k's id being marker k's number |
| `Crawler.ParsePdf` | src/borme/crawler.py:113-135 | the diagnostics are those of cleaning, the acts those of `ExtractActs` on the cleaned text; every record has a one-line region and the formatted date |
| `CrawlerExamples.NextMarkerSkip` | src/borme/crawler.py:76 | positions where no marker starts do not move the next match |
| `CrawlerExamples.GapNoMarker` | src/borme/crawler.py:73 | no marker starts in a stretch whose line breaks are each followed by a non-digit |
| `CrawlerExamples.TwoMarkerFragments` | src/borme/crawler.py:76 | a text of two markers, each followed by marker-free text, splits into an empty lead, marker, gap, marker, gap |
| `CrawlerExamples.TwoActs` | src/borme/crawler.py:66-87 | such a text gives exactly two acts, each marker with the text after it |
| `CrawlerExamples.UnledActs` | src/borme/crawler.py:76-84 | marker-free text, a marker and marker-free text leave three fragments, and the assertion fails |
| `CrawlerExamples.SegmentExample` | src/borme/crawler.py:66-87 | `\n1 - FOO\nalpha\n2 - BAR\nbeta` gives the acts `\n1 - FOO\nalpha` and `\n2 - BAR\nbeta` |
| `CrawlerExamples.SegmentUnledExample` | src/borme/crawler.py:76-84 | `1 - FOO\nalpha\n2 - BAR\nbeta` fails the assertion with three fragments |
| `CrawlerExamples.ParseActFields` | src/borme/crawler.py:95-102 | a stripped block `id-rest` + line break + description parses to that id, the stripped dot-free rest and that description |
| `CrawlerExamples.ExampleName` | src/borme/crawler.py:98 | `" FOO.BAR"` is stripped and loses its dot: `FOOBAR` |
| `CrawlerExamples.ExampleDate` | src/borme/crawler.py:108 | 27 November 2023 is written `2023-11-27` |
| `CrawlerExamples.ParseActExample` | src/borme/crawler.py:90-110 | `1 - FOO.BAR\ndesc1\ndesc2` gives id `"1 "`, name `FOOBAR` and description `desc1\ndesc2` |
| `CrawlerExamples.ParseHyphenatedExample` | src/borme/crawler.py:95-98 | `no-separator-line\ndesc` parses, with id `no` and name `separator-line` |
| `CrawlerExamples.ParseNoSeparatorExample` | src/borme/crawler.py:95-97 | a first line without `-` fails with that line |

## Left out

- Reading the PDF text and page count (`pypdf`), downloading, the HTTP scraping, JSON Lines
  output, logger setup and the command line: they are I/O or foreign libraries. The text and the
  page count are parameters of `Crawler.ParsePdf`.
- `daily_crawler`, `main` and `download_pdf`: directory listing, file checks and per-date
  orchestration around the pure pipeline.
- The log calls: replaced by returned mismatch flags and `Diagnostic` values. The date and the
  PDF path they log are not carried.
- The regular expressions of the five line rules are not modelled: each is a predicate on one
  line. Python's `re` engine is not modelled; the act marker is a hand-written greedy matcher and
  the section title a literal, whose removal is left-to-right non-overlapping deletion.
- `\d` in the marker is restricted to ASCII digits, while Python's `re` also accepts other
  Unicode decimal digits.
- `TypeCasting.CastStrToDate`: Python's `int()` also accepts signs, surrounding whitespace,
  underscores and non-ASCII digits in a field; the model accepts ASCII digits only.
- `Dates.FormatDate`: `%Y` is modelled as four zero-padded digits; some platforms do not pad
  years below 1000.
- `TypeCasting.UniqDatesInList`: the result is a set, because the order of a list built from a
  Python set is unspecified.
- `Crawler.CompanyNameTrimmed`: the absence of whitespace at the ends of the company name is
  proved only for names that neither start nor end with a dot, because the code strips before it
  removes dots and `Crawler.CompanyNameTrailingSpace` shows the space that can then remain.
- `Crawler.ParseActs`: an exception in one block aborts the whole PDF, as in the code; parsing
  the remaining blocks after a failure is not modelled.
