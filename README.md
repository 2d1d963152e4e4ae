# Exam score lookup: the record pipeline of `script.js`

This is a Dafny model of the logic behind a page for looking up exam scores.
The page loads a CSV file of examinees. Each examinee is identified by a
candidate number ("SBD") and has scores in six subjects: Toán, Văn, Anh, Lý,
Hóa and Sinh.

- `parseCSV` turns the file into records. It drops blank lines and strips a
  byte order mark. The header is split on commas. Each data row is split with
  a quote-aware scanner, and a row is kept only when its field count matches
  the header's. Each header name is mapped to its cell. Each subject is then
  reconciled to either the sentinel "N/V" or a number. The total is stored
  under "Tổng điểm".
- `isValidScore` and `parseScore` normalise one cell: empty cells, "vắng",
  "N/V" and unparsable text all become "N/V".
- `calculateTotalScore` adds up the valid subject scores.
- The `khoiMap` table has 15 admission groups ("mã khối"), each with three
  subjects. A loop lists, in table order, every group whose three subjects all
  hold a valid score, together with the three scores and their sum. A `found`
  flag says whether any group was listed.
- `findStudentBySBD` and the search button find the first record whose
  trimmed candidate number equals the trimmed query.

## Project layout

| module | file | what it models |
|---|---|---|
| `Wrappers` | wrappers.dfy | `Option` |
| `Strings` | strings.dfy | the JavaScript string methods the code uses: `trim`, `split`, `replace` with a one-character pattern, `includes`, `toUpperCase` |
| `Scores` | scores.dfy | cell values, records, `parseFloat`, `parseScore`, `isValidScore` |
| `Totals` | totals.dfy | `calculateTotalScore` |
| `Tokenizer` | tokenizer.dfy | the quote-aware line scanner inside `parseCSV` |
| `Seqs` | seqs.dfy | generic sequence helpers: filter, map, and map-then-concatenate |
| `Csv` | csv.dfy | `parseCSV` |
| `Groups` | groups.dfy | `khoiMap` and the group loop of `displayStudent` |
| `Lookup` | lookup.dfy | `findStudentBySBD` and the click handler |

Two kinds of code appear in the model:
- Code that loops and updates variables is written as a `method` with a
  `while` loop. This covers the line scanner, the row loop, the header loop,
  the subject loop, `calculateTotalScore` and the group loop. Each such method
  is proved equal to a function.
- The properties of the source are then proved about those functions.
  `isValidScore`, `parseScore` and `findStudentBySBD` are functions.

A record is a `map<string, Value>`, where a `Value` is either `Text(s)` or
`Num(x)`. A missing key reads as `None`, which stands for JavaScript's
`undefined`. Scores are `real`s.

### Quirks of the code

- **Trailing-space spellings never match.** The subject table lists the
  spellings `Toán `, `Văn ` and `Anh `, with a trailing space, as alternatives
  (script.js:73-75). But every header name is trimmed (script.js:44 and again
  at script.js:69), so no record key ever ends in a space, and these
  spellings are never found. `Csv.TrailingSpaceNeverMatches` proves this.
- **Six groups need Hóa.** They are A00, B00, C02, C08, D07 and D12
  (script.js:155, 158, 162, 163, 165, 168). A record without a valid Hóa
  score lists none of them. `Groups.NoChemistryGroups` states all six.
- **Where 0 counts as missing.** `isValidScore(0)` and `parseScore(0)` agree:
  both treat the number 0 as falsy, so 0 is invalid and becomes "N/V". The
  quirk lies elsewhere: a cell "0" is parsed to the number 0 and stored, and
  the stored 0 then fails `isValidScore`. So a 0 adds nothing to the total
  and excludes every group that needs that subject (`Scores.ZeroCellIsStoredAsZero`,
  `Groups.ZeroScoreExcludes`).

## Model

| member | source | states |
|---|---|---|
| Strings.Trim | script.js:44 | the result has no white space at either end, uses only characters of the input, and is the input itself when that is already trimmed |
| Strings.TrimSlice | script.js:44 | `trim` removes the white space around the input and nothing else: the result is a slice of the input with only white space before and after it |
| Strings.Split | script.js:40 | one more piece than separators, and no piece holds the separator |
| Strings.JoinSplit | script.js:40 | joining the pieces of a split with the same separator gives back the original text |
| Strings.ReplaceFirst | script.js:12 | the length is kept, every character is kept or is the pattern turned into the replacement, and a string without the pattern is unchanged |
| Strings.ReplaceFirstAt | script.js:22 | only the first occurrence of the pattern is replaced |
| Strings.Upper | script.js:11 | upper-casing keeps the length |
| Strings.Contains | script.js:11 | `includes`: a string holds only strings no longer than itself; `Strings.ContainsInfix` and `Strings.NotContainsFirst` state which strings it holds |
| Scores.HasAbsenceMarker | script.js:11 | the test for "VẮNG" or "N/V" in the upper-cased cell; only a cell of at least three characters carries a marker, and `Scores.AbsenceMarkerAnywhere` and `Scores.NumeralHasNoMarker` state where it holds |
| Scores.Normalize | script.js:12 | `replace(',', '.')`: the length is kept and every character is kept, except that a comma may become a point; text without a comma is unchanged (`Scores.CommaNormalized` for numerals) |
| Scores.ParseFloat | script.js:13 | `parseFloat`, with NaN as `None`; its values are stated by `Scores.UnsignedStart`, `Scores.DecimalPrefixValue`, `Scores.IntegerPrefixValue`, `Scores.DecimalValue` and `Scores.ParseFloatNeedsDigit` |
| Scores.ParseFloatNeedsDigit | script.js:13 | a string without a decimal digit parses to NaN |
| Scores.ParseScore | script.js:18-27 | the stored score is either "N/V" or a number; a falsy value gives "N/V"; a non-zero number is passed through |
| Scores.IsValidScore | script.js:8-16 | a score is valid exactly when `parseScore` does not turn it into "N/V" |
| Scores.StoredScoreValidity | script.js:8-27 | a stored score is valid again exactly when it is a non-zero number; parsing a stored score again changes only a stored 0, which becomes "N/V" |
| Scores.SentinelIsMarked | script.js:11 | "N/V" contains its own marker, so parsing it again keeps "N/V" |
| Scores.ZeroCellIsStoredAsZero | script.js:9 | a cell "0" is stored as the number 0, and that stored 0 is no longer a valid score |
| Scores.AbsenceMarkerAnywhere | script.js:11 | a marker that upper-cases to "VẮNG" or "N/V", anywhere in the cell, makes the score "N/V" and invalid |
| Scores.UnsignedStart | script.js:23 | a string that starts with neither white space nor a sign is read as an unsigned numeral |
| Scores.DecimalPrefixValue | script.js:23 | `parseFloat` reads digits, a point and digits as their decimal value, and ignores whatever follows |
| Scores.IntegerPrefixValue | script.js:23 | digits followed by neither a digit nor a point are read as their integer value |
| Scores.CommaNormalized | script.js:22 | the comma of a decimal numeral becomes a point, and a numeral with a point is left as it is |
| Scores.NumeralHasNoMarker | script.js:21 | a numeral never contains an absence marker |
| Scores.NumeralScore | script.js:20-24 | a non-empty cell with no marker, whose normalised form parses, has that number as its score |
| Scores.DecimalCommaOrPoint | script.js:12-13 | a decimal comma and a decimal point give the same score, and it is valid |
| Scores.UnparsableScore | script.js:23-24 | a non-empty cell without a marker whose normal form does not parse becomes "N/V" and is not valid |
| Scores.DigitFreeCell | script.js:21-24 | a cell without any decimal digit, such as "abc", becomes "N/V" and is not valid |
| Scores.DecimalValue | script.js:22-24 | a decimal numeral with a point parses to its decimal value |
| Totals.CalculateTotalScore | script.js:29-37 | the loop computes the total of the record: the sum of the six subjects' contributions |
| Totals.SubjectsDistinct | script.js:31 | the six subject keys are pairwise distinct |
| Totals.ContributionOfNumber | script.js:34 | a stored number counts for itself (0 counts for 0) |
| Totals.ContributionOfMissing | script.js:34 | a missing subject and "N/V" add nothing |
| Totals.TotalOfNoValidScore | script.js:29-37 | a record with no valid subject score has total 0 |
| Totals.TotalNonNegative | script.js:29-37 | if no valid score is negative, the total is not negative |
| Totals.TotalMonotone | script.js:29-37 | a record whose every subject counts at least as much as another's has at least that record's total |
| Totals.TotalIgnoresOtherKeys | script.js:31-33 | keys other than the six subjects, including "Tổng điểm", do not change the total |
| Totals.TotalAfterUpdate | script.js:32-34 | changing one subject changes the total by exactly the difference of its two contributions |
| Totals.RaiseOneScore | script.js:32-34 | raising one subject to a non-negative number at least its old contribution does not lower the total |
| Tokenizer.RawFields | script.js:53-64 | the scan of a line always yields at least one field |
| Tokenizer.TrimAll | script.js:58 | each field is trimmed, one result per field |
| Tokenizer.RemoveQuotes | script.js:55-56 | the text without its quote characters contains no quote |
| Tokenizer.RawFieldsStep | script.js:54-62 | one character of the scan: a quote flips the flag, a comma outside quotes ends the field, any other character joins it |
| Tokenizer.ScanStep | script.js:54-62 | what the scan has yet to produce is unchanged by processing one character in each of its three cases |
| Tokenizer.FieldEnds | script.js:57-59 | a comma outside quotes moves the trimmed current field to the finished ones |
| Tokenizer.FieldGrows | script.js:60-61 | any other character is appended to the current field |
| Tokenizer.LastField | script.js:64 | at the end of the line the trimmed current field is the last field |
| Tokenizer.TokenizeLine | script.js:50-64 | the scanning loop yields exactly the fields of the line |
| Tokenizer.FieldCount | script.js:53-64 | there is one more field than there are commas met outside quotes |
| Tokenizer.NoQuoteInRawFields | script.js:55-56 | no field contains a quote character |
| Tokenizer.JoinRawFields | script.js:53-63 | joining the untrimmed fields with commas gives back the line without its quotes: the scanner drops quotes and nothing else |
| Tokenizer.QuoteFreeSplit | script.js:53-63 | without quotes, the scanner splits on every comma, just as the header split does |
| Tokenizer.TokenizeFields | script.js:50-64 | the field count is one more than the commas outside quotes, and every field is trimmed and free of quotes |
| Tokenizer.TrimAllAt | script.js:58 | field `i` of the result is the trimmed field `i` |
| Tokenizer.PlainText | script.js:60-61 | text holding no quote, and no comma unless quoted, continues the current field |
| Tokenizer.QuotedMiddleField | script.js:55-58 | `a,"b",d`, where `b` may hold commas, gives the three trimmed fields `a`, `b` and `d` |
| Tokenizer.QuotedCommaExample | script.js:50-64 | the line `a,"b,c",d` gives the fields `a`, `b,c` and `d` |
| Csv.ParseCsv | script.js:39-98 | `parseCSV` returns exactly the records of the well-formed data rows |
| Csv.ParseDataRows | script.js:48-95 | the row loop appends, in order, the record of each row whose field count matches the header's |
| Csv.FillFields | script.js:67-70 | the header loop builds the map from trimmed header names to cells |
| Csv.FindCell | script.js:82-88 | the inner loop finds the first spelling whose cell is present and not empty, or `null` |
| Csv.ReconcileSubjects | script.js:81-90 | the subject loop stores each subject's parsed score, one subject after another |
| Csv.BuildStudent | script.js:66-93 | a well-formed row gives its field map, followed by reconciled subjects and the stored total |
| Csv.RowKeptStep | script.js:66-93 | a row with the header's field count appends its record |
| Csv.RowDroppedStep | script.js:66 | any other row appends nothing |
| Csv.Lines | script.js:40 | a line is kept exactly when it is a piece of the text between line feeds and is not blank once trimmed |
| Csv.StripBom | script.js:43 | exactly one leading U+FEFF is removed; a line that does not start with one is unchanged |
| Csv.HeaderNames | script.js:43-44 | there is one header name per comma of the header line, plus one; `Csv.HeaderNamesFacts` adds that each is trimmed |
| Csv.BlankLineDropped | script.js:40 | a white-space-only line is dropped and changes nothing else |
| Csv.LinesOfText | script.js:40 | no kept line is blank or holds a line feed, and there is at most one more line than line feeds |
| Csv.RecordCount | script.js:41 | fewer than two non-blank lines give no records; otherwise there are at most as many records as data lines |
| Csv.ParseRowsSnoc | script.js:66-93 | one more data row adds its record when its field count matches, and nothing otherwise |
| Csv.ParseRowsBound | script.js:66 | there is at most one record per data row |
| Csv.ParseRowsAppend | script.js:48-95 | rows are parsed independently: the records of two blocks of rows are the two lists of records, in order |
| Csv.MalformedRowDropped | script.js:66 | a row whose field count differs from the header's is dropped without trace |
| Csv.AllRowsKept | script.js:48-95 | when every row is well formed, there is one record per row, the record of that row, in the same order |
| Csv.ParseRowsBuilt | script.js:66-93 | every record returned was built from one of the data rows |
| Csv.HeaderNamesFacts | script.js:43-44 | one header name per comma plus one, each trimmed; a header without quotes splits as the scanner would |
| Csv.BomRemoved | script.js:43 | a leading byte order mark is removed before the header is split |
| Csv.AssignKeys | script.js:68-70 | the keys of the assigned map are exactly the names, and every value is a raw cell |
| Csv.AssignLastWins | script.js:68-70 | a name receives the cell of its last occurrence |
| Csv.FieldMapKeys | script.js:68-70 | a key is in the field map exactly when some header trims to it |
| Csv.FieldMapValues | script.js:69 | every field-map value is a raw cell stored under a trimmed name |
| Csv.LastDuplicateWins | script.js:68-70 | a duplicated header name maps to the cell of its last occurrence |
| Csv.FirstPresentAgree | script.js:83-88 | the first spelling found is the same in two records that agree on every spelling |
| Csv.ReconcileKeepsOthers | script.js:81-90 | the subject loop leaves every other key as it was |
| Csv.ReconcileSplit | script.js:81-90 | the subject loop over two lists of entries is the loop over the first list followed by the loop over the second |
| Csv.ReconcileEntry | script.js:81-90 | an entry whose key no other entry writes, and whose spellings no earlier entry overwrites, ends holding the parsed score of its first present spelling in the input record |
| Csv.SubjectMapShape | script.js:72-79 | the subject table lists the six subjects in order, each tried first under its own name, with at most a trailing-space variant |
| Csv.ReconcileSubject | script.js:81-90 | after the subject loop, each subject holds the parsed score of its first spelling present in the row |
| Csv.TrailingSpaceNeverMatches | script.js:73-75 | in a record whose keys are all trimmed, the trailing-space spelling is never a key, so it never changes the spelling found |
| Csv.SubjectOfRecord | script.js:72-90 | each subject of a record holds the parsed score of its own column, and is either "N/V" or a number |
| Csv.SubjectFromColumn | script.js:69 | a subject read from its last column holds that cell's parsed score, or "N/V" when the cell is empty |
| Csv.MissingSubjectColumn | script.js:89 | a subject without a column is stored as "N/V" |
| Csv.OtherFieldKept | script.js:81-92 | every other column keeps its field-map value |
| Csv.StoredTotal | script.js:92 | the stored total is the total of the record's own subject scores |
| Csv.OtherFieldIsText | script.js:66-93 | in every record returned, a column that is neither a subject nor the total, such as SBD, is absent or raw text |
| Groups.EligibleGroups | script.js:174-211 | the group loop lists exactly the report of the table, and `found` is set exactly when that report is not empty |
| Groups.GroupListedStep | script.js:176-206 | a group all of whose subjects are valid appends its entry |
| Groups.GroupSkippedStep | script.js:176 | any other group appends nothing |
| Groups.CodesDistinct | script.js:154-170 | there are fifteen groups, with distinct codes |
| Groups.GroupSubjects | script.js:154-170 | each group names three distinct subjects among the six that are totalled |
| Groups.ChemistryGroups | script.js:154-170 | the groups that need Hóa are rows 0, 3, 7, 8, 10 and 13 |
| Groups.ChemistryGroupCodes | script.js:154-170 | those rows are A00, B00, C02, C08, D07 and D12 |
| Groups.ScoresOfValues | script.js:177 | the listed score of a subject holding a valid score is its parsed number |
| Groups.SumOfThree | script.js:178 | three scores add up from 0, left to right |
| Groups.EntryScores | script.js:176-178 | a listed group carries its code, its subjects, the parsed score of each subject and their sum |
| Groups.ReportMembers | script.js:175-176 | an entry is listed exactly when it is the entry of a table group whose subjects are all valid |
| Groups.ReportSplit | script.js:175 | listing a table in two parts lists the groups of the first part before those of the second |
| Groups.ReportOfAll | script.js:175-177 | when every group qualifies, each is listed, in table order |
| Groups.ReportOrder | script.js:175 | of two qualifying groups, the earlier in the table is listed first |
| Groups.ReportHead | script.js:175-176 | a qualifying first group is listed first |
| Groups.ReportOfNone | script.js:210-211 | when no group qualifies, nothing is listed |
| Groups.NothingListed | script.js:210-211 | the "no group" message appears exactly when no group qualifies |
| Groups.ListedSubjectsValid | script.js:176 | every listed group has a valid score in each of its subjects |
| Groups.MissingSubjectExcludes | script.js:176 | a subject without a valid score excludes every group that needs it |
| Groups.NoChemistryGroups | script.js:155-168 | a record without a valid Hóa score lists none of A00, B00, C02, C08, D07 or D12 |
| Groups.ZeroScoreExcludes | script.js:176 | a subject stored as the number 0 excludes every group that needs it |
| Lookup.FirstMatch | script.js:111 | the position found, if any, lies in the list |
| Lookup.FirstMatchSpec | script.js:111 | `find` stops at the first element that passes, and finds nothing exactly when no element passes |
| Lookup.FindStudentBySbd | script.js:110-112 | a record is found exactly when some record's candidate number matches, and the record found is one of the records and matches |
| Lookup.Search | script.js:114-127 | the handler refuses exactly the queries that are blank once trimmed; "not found" carries the trimmed query and means no record matches it; a record shown is one of the records and matches the trimmed query |
| Lookup.FoundIsFirst | script.js:111 | the record found is the first one that matches |
| Lookup.FirstMatchIgnoresLater | script.js:111 | records after the first match do not change the result |
| Lookup.FirstMatchSkipsMisses | script.js:111 | if none of the records already searched matches, the result is the first match among the rest |
| Lookup.QueryTrimmed | script.js:115 | white space around the query is ignored |
| Lookup.BlankQueryRefused | script.js:115-119 | a query that is blank once trimmed is refused before any lookup, and only such a query |
| Lookup.FoundMatches | script.js:123-127 | a record that is shown is one of the records, and it matches the trimmed query |
| Lookup.NotFoundMeansNoMatch | script.js:123-125 | "not found" is shown exactly when no record matches the trimmed query |
| Lookup.NumericIdNeverMatches | script.js:111 | a number stored under SBD never matches |
| Lookup.MissingIdReadsUndefined | script.js:111 | a record without an SBD column matches the query "undefined", as `String(undefined)` does |
| Lookup.TextIdMatches | script.js:111 | a text candidate number matches exactly the queries equal to it once trimmed |

## Left out

- The page itself is not modelled: DOM access, the `DOMContentLoaded` and click listeners, and every HTML string built by `displayStudent` (script.js:2-5, 131-153, 172, 179-205, 214-215). `Lookup.Search` returns which of the three outcomes the handler displays.
- Loading is not modelled: `fetch`, `async`/`await` and the load error message of `loadStudentData` (script.js:100-108). `Lookup.Search` takes the records already parsed, so the load on the first click (script.js:121) is outside the model.
- Floating point is not modelled. JavaScript numbers are IEEE doubles; here scores are exact `real`s, sums carry no rounding, and `sum.toFixed(2)` (script.js:196) is left out.
- Scores.ParseFloat: reads leading white space, an optional sign, digits and an optional point with digits. Exponents (`1e5` reads as 1 here), `Infinity`, and the other forms JavaScript accepts are not modelled.
- Strings.Upper: maps characters one to one over ASCII and the Latin ranges used by Vietnamese. Full Unicode case mapping, including mappings that change a string's length (`ß` to `SS`), is left out.
- Strings are sequences of Unicode code points, while JavaScript indexes UTF-16 code units. The scanner only tests for `"` and `,`, so its fields are the same either way.
- Lookup.AsString: `String(x)` of a number is not modelled; a number under SBD never matches. Parsed records never hold a number there (`Csv.OtherFieldIsText`).
- JavaScript object key quirks (`__proto__`, integer-like keys listed first) are not modelled: a record is a plain map.
- A record shown for a lookup is not checked for being unchanged; the model's records are values, so nothing can change them.
