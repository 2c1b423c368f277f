# OpenZoe dose reporting — a verified model of its core logic

OpenZoe imports DICOM Structured Report (SR) radiation-dose documents into a local
exam table and reports on them. This project models in Dafny the parts of the tool
that are plain sequential logic, and proves what each promises:

- **SR import** (`DicomParser`, `Upload`): the pre-order walk over an SR content
  tree (DICOM PS3.3 section C.17.3) that fills Dose (RP) Total (113725), Dose Area
  Product Total (113722) and Total Fluoro Time (113730) — codes of the DCM scheme of
  DICOM PS3.16. The walk is modelled as a method on an accumulator object, proved
  against a recursive specification. The model also covers the physician badge taken
  from a person name (carets as in section 6.2 of DICOM PS3.5), the normalised exam
  record, and the batch loop with its success and error counts. It also covers the
  upload dialog's copy of the walk, whose TempoAcq slot is never written.
- **Dose table** (`DoseTable`): `codigos_dose` and `extrair_valores`, which record
  every tabled measurement under "name (unit)", the last write winning.
- **Filter builder** (`Filters`): `montar_query_filtros` grows a WHERE text and its
  parameter list over thirteen optional inputs. It is an imperative method proved
  against a list of clause values and their rendering.
- **Time series and statistics** (`Analytics`, `Calendar`): the zero-filled day axis
  between the first and last grouped day, the single and multi-physician fills, the
  mode flag, and the query shapes of the four statistics. `Calendar` is a proleptic
  Gregorian calendar with day numbers, `timedelta` addition and `strftime`/`strptime`
  for YYYY-MM-DD.
- **Small helpers**:
  - `Display`: the date and time cell formatters of core/utils.py.
  - `Minutes`: `tempo_para_minutos`.
  - `Removal`: the id and id-range parser of the removal dialog, with de-duplication and counting of deletions.
  - `Paging`: table pagination and the current-page object.
  - `DoseBands`: the dose warning colours.
- **Python text semantics** (`Text`, `PyNumbers`): `strip`, `split()`, `split(sep)`,
  `replace`, `isdigit`, `str(n)`, code-point string order, `int()` and `float()`.
  The rest of the model is stated over these.

SQLite, pydicom, the directory walk and the Flet user interface are outside the
model. The store's insert and delete calls are inputs:
- a file's insert reply is part of the file's outcome;
- the delete call is a function `string -> bool`.

The current date is a parameter.

## Model

| member | source | states |
|---|---|---|
| Text.SkipBlanks | core/utils.py:5 | the index of the first non-blank at or after `i`; everything skipped is blank |
| Text.TrimEnd | core/database.py:21 | the end of the text once trailing blanks are dropped; everything dropped is blank |
| Text.Strip | core/database.py:29-32 | `strip()` is empty exactly when the text is all blanks, and otherwise starts and ends with a non-blank |
| Text.StripBounds | core/database.py:29-32 | `strip()` is the slice from the first to just past the last non-blank |
| Text.StripTrimmed | core/database.py:30 | text with no blank at either end is left unchanged by `strip()` |
| Text.StripInside | core/database.py:32 | `strip()` only removes characters |
| Text.Token | core/utils.py:5 | the longest blank-free prefix of a text |
| Text.Words | core/utils.py:5 | every piece of `split()` is non-empty and blank-free |
| Text.WordsEmpty | core/utils.py:5 | `split()` is empty exactly when the text is all blanks |
| Text.FirstWord | core/utils.py:5 | the first piece of `split()` starts at the first non-blank, is preceded only by blanks, and ends at a blank or at the end |
| Text.TokenPrefix | core/utils.py:5 | a blank-free prefix that ends at a blank or at the end of the text is the leading token |
| Text.WordsOfWord | core/utils.py:5 | a non-empty blank-free text splits into itself alone |
| Text.WordsSkipBlank | core/utils.py:5 | a leading blank does not change `split()` |
| Text.WordsCons | core/utils.py:5 | a word followed by a blank is the first piece of `split()`, followed by the pieces of the rest |
| Text.SplitOn | core/database.py:32 | `split(sep)` yields at least one piece, no piece holds the separator, and joining the pieces with it gives the text back |
| Text.SplitNone | main.py:1782 | text without the separator splits into itself alone |
| Text.SplitTwoPieces | main.py:1782-1783 | two separator-free pieces joined by the separator split back into those two pieces |
| Text.SplitThree | main.py:1782-1783 | three separator-free pieces joined by the separator split back into those three pieces |
| Text.SplitTwo | main.py:1782-1783 | text that splits into two pieces is the first piece, the separator and the second piece |
| Text.SplitOnUnique | core/database.py:32 | the pieces of `split(sep)` are the only separator-free pieces that join back to the text |
| Text.JoinInjective | core/database.py:32 | joining separator-free pieces loses nothing: equal joins come from equal pieces |
| Text.ReplaceChar | main.py:1773 | `replace(a, b)` keeps the length and swaps exactly the characters equal to `a` |
| Text.RemoveAll | core/utils.py:9 | `replace(pat, '')` never lengthens the text and keeps only characters of it |
| Text.RemoveAllAbsent | core/utils.py:9 | text lacking the pattern's first character is left unchanged |
| Text.DigitChar | main.py:1789 | a digit's character is an ASCII digit whose value is that digit |
| Text.DigitsOf | main.py:1789 | the last `w` decimal digits of a number: exactly `w` ASCII digits |
| Text.Width | main.py:1789 | the number of digits of `str(n)`: enough digits to hold `n`, and at least two from 10 upwards |
| Text.Decimal | main.py:1789 | `str(n)` is a non-empty run of ASCII digits |
| Text.DecimalDenotes | main.py:1789 | `str(n)` denotes `n`, and starts with a zero only when it is "0" |
| Text.ValueOfDigitsOf | main.py:1789 | writing a number at a width that holds it and reading it back gives the number |
| Text.DigitsOfValue | core/dicom_parser.py:79 | reading a digit string and writing it back at the same width gives the string back |
| Text.ValueBound | core/dicom_parser.py:79 | a digit string of length `w` denotes a number below 10^w |
| Text.LexLeRefl | core/analytics.py:28-29 | code-point order is reflexive |
| Text.LexLeTotal | core/analytics.py:28-29 | code-point order is total |
| Text.LexLeTrans | core/analytics.py:28-29 | code-point order is transitive |
| Text.LexLeAntisym | core/analytics.py:28-29 | code-point order is antisymmetric |
| Text.LexLeDigits | core/analytics.py:28-29 | on equal-length digit strings, code-point order is numeric order (both directions) |
| Text.LexLeConcat | core/analytics.py:28-29 | texts that share a prefix length compare by prefix first, then by the rest |
| Text.MinLex | core/analytics.py:28 | `min(datas)` is one of the days and is no later than any of them |
| Text.MaxLex | core/analytics.py:29 | `max(datas)` is one of the days and is no earlier than any of them |
| PyNumbers.ParseInt | main.py:1784-1785 | `int(s)` succeeds exactly when the stripped text, after an optional sign, is all digits; a negative result had a leading minus |
| PyNumbers.ParseFloat | main.py:1562 | `float(s)` succeeds exactly when the stripped unsigned text is a decimal numeral; a negative result had a leading minus |
| PyNumbers.Fraction | main.py:1562 | the digits after a decimal point have a non-negative value |
| PyNumbers.DecimalValue | main.py:1562 | a decimal numeral has a non-negative value |
| PyNumbers.DigitsHaveNoSpace | main.py:1784 | a run of digits holds no blank |
| PyNumbers.ParseDigits | main.py:1784-1785 | a digit run reads, as `int` and as `float`, as the number it denotes |
| PyNumbers.ParseNegative | main.py:1784-1785 | "-" followed by digits reads as the negated number |
| PyNumbers.ParseIntDecimal | main.py:1784-1789 | `int(str(n)) == n` for every non-negative `n` |
| PyNumbers.FractionShape | main.py:1562 | "a.b" with digit runs `a` (non-empty) and `b` is already stripped, unsigned, and splits at the point into `a` and `b` |
| PyNumbers.ParseFloatFraction | main.py:1562 | `float("a.b")` is the value of `a` plus the fraction `b` |
| PyNumbers.UnsignedInside | main.py:1562 | the numeral after the sign holds only characters of the text |
| PyNumbers.NoDigitNoNumber | main.py:1562-1564 | text without a digit is neither an `int` nor a `float` |
| Calendar.DaysInMonth | core/analytics.py:37 | every month has 28 to 31 days |
| Calendar.AddDays | core/analytics.py:37 | `d + timedelta(days=n)` of a valid date is a valid date |
| Calendar.NextDayNumber | core/analytics.py:37 | the next day is valid and one day number further on |
| Calendar.AddDaysNumber | core/analytics.py:35-37 | adding `n` days moves the day number by exactly `n` |
| Calendar.YearsAdvance | core/analytics.py:35 | a later year starts no earlier than the end of an earlier one |
| Calendar.MonthsAdvance | core/analytics.py:35 | a later month starts no earlier than the end of an earlier one |
| Calendar.DayNumberMonotone | core/analytics.py:35 | day numbers follow calendar order strictly |
| Calendar.DayNumberInjective | core/analytics.py:35 | distinct valid dates have distinct day numbers |
| Calendar.Format | core/analytics.py:38 | `strftime("%Y-%m-%d")` is ten characters long |
| Calendar.ParseIso | core/analytics.py:31-32 | `strptime("%Y-%m-%d")` only yields valid dates with years up to 9999 |
| Calendar.FormatParseIso | core/analytics.py:31-38 | writing a date read from text gives the text back |
| Calendar.ParseIsoFormat | core/analytics.py:31-38 | reading a written date gives the date back |
| Calendar.LexLeFields | core/analytics.py:28-29 | fixed-width Y-M-D texts compare field by field |
| Calendar.FormatLexIsCalendar | core/analytics.py:28-29 | code-point order on written dates is calendar order (both directions) |
| Calendar.FormatOrder | core/analytics.py:28-32 | code-point order on written dates is day-number order (both directions) |
| Display.FormatDate | core/utils.py:3-5 | falsy gives ""; otherwise it raises exactly when the text is all blanks, and returns a non-empty blank-free token |
| Display.FormatTime | core/utils.py:7-9 | falsy gives ""; otherwise it raises exactly when the text is all blanks, and the result is blank-free |
| Display.FormatDateFirstToken | core/utils.py:5 | the shown date is the first whitespace-separated token of the cell, in place |
| Display.FormatDateIdempotent | core/utils.py:5 | formatting a shown date again gives the same date |
| Display.ExampleTimestamp | core/utils.py:5 | "2026-02-10 08:30:00" is shown as "2026-02-10" |
| Display.RemoveAllSuffix | core/utils.py:9 | removing every pattern from `t + pat`, where `t` cannot start a match, leaves `t` |
| Display.FormatTimeMicros | core/utils.py:9 | a time stored with ".000000" is shown without it, and one without a point is shown as stored |
| Display.TimeFollowsDate | core/utils.py:5-9 | the time form fails exactly when the date form does, and is the date form's token with every ".000000" removed |
| Minutes.LastPiece | main.py:61 | the last piece of `split(' ')` holds no space |
| Minutes.TimeToMinutes | main.py:57-66 | falsy input or "None" gives 0.0; otherwise a last piece that splits on ':' into three fields read by `int`, `int` and `float` gives h * 60 + m + s / 60, and any other shape or unreadable field gives 0.0 |
| Minutes.LastPieceAfterSpace | main.py:61 | the last piece of `d + " " + c` is `c` when `c` has no space |
| Minutes.DatePrefixIgnored | main.py:61 | a date (or anything) before the last space does not change the minutes |
| Minutes.DurationFields | core/dicom_parser.py:77-79 | a formatted duration is three zero-padded fields whose h*3600 + m*60 + s is the floor of the seconds |
| Minutes.ClockText | main.py:62-64 | "h:m:s" with digit fields converts to h*60 + m + s/60 |
| Minutes.ClockShape | main.py:61-62 | "h:m:s" with digit fields is its own last piece and splits on ':' into its three fields |
| Minutes.MinutesOfFormattedDuration | main.py:57-66 | reading back the HH:MM:SS written for `t` seconds gives floor(t)/60 minutes |
| Minutes.RecordMinutes | main.py:57-66 | the table's minutes column reads an imported record's duration as its whole fluoro seconds / 60 |
| Minutes.AgreesWithSqlMinutes | main.py:57-66 | below 100 hours, this conversion and the SQL `substr` conversion of the statistics agree on every stored duration |
| Minutes.ExampleClock | main.py:57-66 | "00:10:30" is 10.5 minutes |
| Minutes.ExampleTimestamp | main.py:61 | "2026-02-10 00:10:30" is 10.5 minutes |
| Minutes.ExampleTwoFields | main.py:62-66 | "01:30" does not unpack into three fields and gives 0.0 |
| Minutes.ExampleNonNumeric | main.py:62-66 | "aa:bb:cc" has three fields but `int` cannot read them, so it gives 0.0 |
| DicomParser.VisitAllAppend | core/dicom_parser.py:60 | visiting two runs of items is visiting the first, then the second from where the first left off |
| DicomParser.WalkIsPreorderVisit | core/dicom_parser.py:59-69 | the recursive walk equals a left-to-right visit of the tree's items in pre-order, at any depth |
| DicomParser.VisitAllRaises | core/dicom_parser.py:61-64 | a visit raises exactly when some item has an empty code sequence or an unreadable value |
| DicomParser.VisitAllMeaning | core/dicom_parser.py:51-69 | after a successful visit, TempoFluoro grew by the sum of all 113730 values, and Dose and DAP hold the last 113725 and 113722 values (or what they held) |
| DicomParser.DocumentMetrics | core/dicom_parser.py:51-71 | for a whole document: it raises exactly when some item is faulty; otherwise fluoro is the pre-order sum and dose and DAP are the last values, or 0.0 |
| DicomParser.NestedFluoroTimesAdd | core/dicom_parser.py:67-69 | fluoro times at different depths add up (2.5 + 1.5 = 4.0) |
| DicomParser.Accumulator.constructor | core/dicom_parser.py:51-56 | the metrics dictionary starts at 0.0 in every slot |
| DicomParser.ReadItem | core/dicom_parser.py:61-67 | one item's own step raises exactly as the specification says, and otherwise leaves the specified metrics |
| DicomParser.ExtractSimple | core/dicom_parser.py:59-71 | the in-place walker succeeds exactly when the specification walk does, and then leaves its result in the accumulator |
| DicomParser.FirstDigitToken | core/dicom_parser.py:20-22 | none exactly when no token is all digits; otherwise the first all-digit token |
| DicomParser.IdentifyPhysician | core/dicom_parser.py:12-25 | "N/A" for an empty name or "N/A"; else the first all-digit token after carets become blanks; else the raw name, carets kept |
| DicomParser.WordsOfJoin | core/dicom_parser.py:19 | non-empty blank-free components joined with blanks split back into themselves |
| DicomParser.ReplaceJoin | core/dicom_parser.py:18 | replacing carets by blanks in a caret-joined name gives the blank-joined name |
| DicomParser.PersonNameTokens | core/dicom_parser.py:18-19 | a person name with well-formed components tokenises into exactly its components |
| DicomParser.PhysicianOfComponents | core/dicom_parser.py:12-25 | for a well-formed person name the badge is its first all-digit component, or else the whole name |
| DicomParser.ExampleName | core/dicom_parser.py:18-22 | SMITH^JOHN^12345 is three well-formed components whose first all-digit one is 12345 |
| DicomParser.BadgeFromPersonName | core/dicom_parser.py:18-22 | "SMITH^JOHN^12345" identifies physician "12345" |
| DicomParser.StudyDateIso | core/dicom_parser.py:45-49 | an 8-character StudyDate becomes s[0:4]-s[4:6]-s[6:8] whatever its characters; any other length gives today |
| DicomParser.StudyDateReadable | core/dicom_parser.py:45-47 | a DA value naming a real day is stored as text that `strptime` reads back as that day |
| DicomParser.HmsFields | core/dicom_parser.py:77-78 | minutes and seconds are below 60 and h*3600 + m*60 + s is the floor of the seconds |
| DicomParser.Pad2 | core/dicom_parser.py:79 | `{:02d}` of a non-negative number is at least two digits denoting it, exactly two below 100 |
| DicomParser.Upper | core/dicom_parser.py:82 | ASCII `upper()` keeps the length and upper-cases exactly the lower-case letters |
| DicomParser.NormalizeSex | core/dicom_parser.py:82-83 | the sex is F for "F"/"f", M for "M"/"m", and NI otherwise |
| DicomParser.DurationText | core/dicom_parser.py:77-79 | below 100 hours the duration is eight characters HH:MM:SS whose two-digit fields give h*3600 + m*60 + s equal to the whole seconds |
| DicomParser.StudyDay | core/dicom_parser.py:45-49 | the stored date re-cuts an eight-character StudyDate as YYYY-MM-DD (the dashes dropped give the StudyDate back); any other length, absent included, gives today |
| DicomParser.PhysicianOf | core/dicom_parser.py:42-43 | an absent PerformingPhysicianName gives "N/A"; otherwise the badge rule of `identificar_medico` |
| DicomParser.ExamName | core/dicom_parser.py:84 | the exam is the admitting diagnoses, else the study description, else "NI" |
| DicomParser.SexOf | core/dicom_parser.py:82-83 | the sex is F exactly for "F"/"f", M exactly for "M"/"m", and NI otherwise, an absent attribute included |
| DicomParser.RecordOf | core/dicom_parser.py:42-89 | every field of the record, normalised: the re-cut StudyDate or today, the physician badge or "N/A", the exam with its fallbacks, PatientID or "0", F/M/NI, Manufacturer-Serial, an HH:MM:SS duration denoting the whole fluoro seconds, dose in mGy and DAP in µGy·m² |
| DicomParser.ProcessFile | core/dicom_parser.py:38-99 | a file's outcome is its kind; stored and rejected SR files offer their record, the others nothing |
| DicomParser.ProcessDirectory | core/dicom_parser.py:27-101 | the batch loop's counts are the stored files and the failed plus rejected ones, and the offered records are those of the SR files read |
| DicomParser.BatchAccounting | core/dicom_parser.py:41-99 | every file is a success, an error or skipped; the records offered are the successes plus the rejections |
| DicomParser.CountsConcat | core/dicom_parser.py:35-36 | counts over two runs of files add up |
| DicomParser.MixedBatch | core/dicom_parser.py:41-98 | three good SR files, one non-SR and one unreadable file give 3 successes and 1 error |
| DoseTable.ValueTable.constructor | main.py:1269 | the `info` dictionary starts empty |
| DoseTable.ExtractValues | main.py:1269-1280 | the in-place recorder succeeds exactly when the specification does, and then leaves its result in the dictionary |
| DoseTable.CollectAllAppend | main.py:1270 | recording two runs of items is recording the first, then the second |
| DoseTable.CollectIsPreorder | main.py:1269-1280 | the recursive recorder records the tree's items in pre-order |
| DoseTable.CollectAllRaises | main.py:1271-1276 | recording raises exactly when some item has an empty code sequence or an unreadable tabled value |
| DoseTable.RecordLookup | main.py:1273-1277 | one item changes only the key it writes |
| DoseTable.CollectAllMeaning | main.py:1269-1280 | after a successful walk every key holds the last value written to it, or what it held |
| DoseTable.CollectAllKeys | main.py:1273-1277 | only the six table keys can be added |
| DoseTable.KeysDistinct | main.py:39-45 | six codes, recorded under six different keys |
| DoseTable.KeyLength | main.py:39-45 | the key of each code is "name (unit)", of the stated length |
| DoseTable.WritesIsReads | main.py:1273-1277 | an item writes a code's key exactly when it carries that code and a number |
| DoseTable.SameLast | main.py:1277 | a last write and a last value taken from the same items agree |
| DoseTable.AgreesWithWalker | main.py:1269-1280 | when the importer's walker succeeds, so does the recorder, and its Dose and DAP entries are the walker's values (missing only where the walker's slot is 0.0) |
| DoseTable.ExampleLastWins | main.py:1277 | of two Dose (RP) Total items, the later (nested) one is kept |
| Filters.Column | core/database.py:22-58 | no compared column text holds a placeholder |
| Filters.TrimmedNonBlank | core/database.py:32 | the kept names are no more than the pieces, each non-empty and trimmed |
| Filters.TrimmedNonBlankMembers | core/database.py:32 | every piece with a non-blank is kept stripped, and every name is a stripped piece |
| Filters.TrimmedNonBlankSnoc | core/database.py:32 | the names keep the pieces' order: one more piece appends its stripped text when non-blank |
| Filters.TrimmedKeepsOut | core/database.py:32 | a character absent from every piece is absent from every name |
| Filters.StripIdempotent | core/database.py:30-32 | `strip()` twice is `strip()` once |
| Filters.PhysicianNames | core/database.py:31-32 | the names are exactly the stripped non-blank pieces between semicolons (both directions), each non-empty, trimmed and free of ';' |
| Filters.PhysicianSlot | core/database.py:29-39 | the physician filter adds an IN list or one name |
| Filters.SingleClause | core/database.py:21-71 | a single-input filter's clause is in that filter's position and binds its one value |
| Filters.Slot | core/database.py:14-71 | filter `k` only contributes a clause of rank `k` |
| Filters.RenderSnoc | core/database.py:15-71 | appending a clause extends the text by its SQL and the parameters by its values |
| Filters.AddDateFilter | core/database.py:14-19 | the date step turns the base query into the query with the date filter applied |
| Filters.AddSingleFilter | core/database.py:21-71 | each single-input step extends the query by that filter's clause, if any |
| Filters.AddPhysicianFilter | core/database.py:29-39 | the physician step extends the query by the physician clause, if any |
| Filters.BuildFilters | core/database.py:10-73 | the text is the base followed by the rendered clauses, and the parameters are their values in order |
| Filters.UptoFrom | core/database.py:14-71 | later filters only append: earlier clauses form a prefix, and later clauses come from later filters |
| Filters.UptoOrdered | core/database.py:14-71 | the clauses of the first `k` filters appear in strictly increasing filter order |
| Filters.StrictRanksBound | core/database.py:14-71 | strictly increasing ranks below `n` number at most `n` |
| Filters.ClauseOrder | core/database.py:11-71 | at most twelve clauses, in the order date, doses, physician, exam, times, DAPs, room, sex, patient |
| Filters.MarksAppend | core/database.py:15-71 | placeholders of a concatenation add up |
| Filters.MarksNone | core/database.py:11 | text without '?' has no placeholder |
| Filters.OneMark | core/database.py:18-70 | a fixed text followed by "?" holds one placeholder |
| Filters.PlaceholdersMarks | core/database.py:34 | `",".join(["?"] * n)` holds `n` placeholders |
| Filters.ConditionMarks | core/database.py:14-71 | each condition has one placeholder per bound value |
| Filters.ClauseMarks | core/database.py:14-71 | each clause has one placeholder per bound value |
| Filters.RenderMarks | core/database.py:14-71 | rendered clauses have one placeholder per parameter |
| Filters.QueryMarks | core/database.py:11-73 | the base plus any clauses has one placeholder per parameter |
| Filters.PlaceholdersMatchParams | core/database.py:10-73 | for every filter combination the text holds exactly as many '?' as there are parameters |
| Filters.NoFilters | core/database.py:11-73 | with every input empty or None the result is exactly (" FROM exames WHERE 1=1", []) |
| Filters.UptoNone | core/database.py:14-71 | filters that add nothing give no clauses |
| Filters.DateFilter | core/database.py:14-19 | both bounds give BETWEEN with both; the start alone gives ">="; without a start there is no date clause |
| Filters.SingleInputFilter | core/database.py:21-71 | a single-input filter adds a clause exactly when its input has a non-blank; the exam is bound trimmed, the rest as given |
| Filters.PhysicianFilter | core/database.py:29-39 | a name without ';' is bound trimmed; an entry with ';' gives `medico IN` over its names, or no clause when none survives; any clause binds non-empty trimmed names |
| Filters.PhysicianListExample | core/database.py:31-36 | "A; B ; " binds the two names "A" and "B" |
| Filters.TrimmedNonBlankCons | core/database.py:32 | one step of the list comprehension: a blank piece is dropped, another is kept trimmed |
| Filters.TrimThree | core/database.py:32 | three pieces of which the last is blank keep the first two, trimmed |
| Filters.SeparatorOnly | core/database.py:31-36 | the entry ";" adds no clause |
| Analytics.Days | core/analytics.py:27 | `[r[0] for r in res]`, one day per row, in order |
| Analytics.MultiMode | core/analytics.py:6-8 | multi mode is on exactly when the physician input is present and holds a ';' |
| Analytics.Span | core/analytics.py:28-32 | the parsed first and last grouped days are valid dates of year 9999 or earlier |
| Analytics.NullDayNoSpan | core/analytics.py:27-32 | a NULL grouped day leaves no span, so the series is `([], False)` as when `min` raises in the source |
| Analytics.SpanEnds | core/analytics.py:28-32 | the span is the earliest and the latest grouped day, in calendar order |
| Analytics.DateAxis | core/analytics.py:34-38 | the loop builds the axis of `(d1 - d0).days + 1` days from `d0` |
| Analytics.Axis | core/analytics.py:34-38 | the axis of `n` days has `n` entries (their values in `AxisIndex`) |
| Analytics.AxisIndex | core/analytics.py:36-38 | axis entry `i` is `d0 + i days` written YYYY-MM-DD |
| Analytics.YearBound | core/analytics.py:31-38 | a date no later than one of year 9999 or earlier is itself of year 9999 or earlier |
| Analytics.AxisPair | core/analytics.py:36-38 | two axis days are distinct and in text order |
| Analytics.AxisAscending | core/analytics.py:34-38 | the axis is strictly ascending: each day once |
| Analytics.AxisCovers | core/analytics.py:36-38 | every calendar day of the span is on the axis, at its distance from the first day |
| Analytics.RowOnAxis | core/analytics.py:27-38 | a grouped day that is a date lies on the axis |
| Analytics.AxisSpansRows | core/analytics.py:27-38 | the axis starts at the earliest grouped day, ends at the latest, and holds every grouped day |
| Analytics.SingleFillIndex | core/analytics.py:43-44 | single mode has one point per axis day, with that day's grouped count or 0 |
| Analytics.FillSingle | core/analytics.py:42-44 | the dictionary comprehension and the append loop compute that fill |
| Analytics.CountsOfDistinct | core/analytics.py:42 | with distinct days, each row's count is kept in the dictionary |
| Analytics.SingleKeepsRows | core/analytics.py:41-44 | every grouped row is reproduced unchanged |
| Analytics.RowKept | core/analytics.py:42-44 | a row whose day is on the axis appears as a point |
| Analytics.DayBlockIndex | core/analytics.py:51-52 | a day's block has one point per physician with that physician's count or 0 |
| Analytics.MultiFillLength | core/analytics.py:50-52 | multi mode has days × physicians points |
| Analytics.MultiFillAt | core/analytics.py:50-52 | point `i * P + j` is day `i` with physician `j` (day-major) |
| Analytics.MultiFillIndex | core/analytics.py:50-52 | days × physicians points, point `i * P + j` being day `i` with physician `j` and its count or 0 |
| Analytics.MultiFillPairsOnce | core/analytics.py:50-52 | with distinct days and physicians each (day, physician) pair occurs once, and only axis days occur |
| Analytics.DistinctPhysicians | core/analytics.py:46 | `list(set(...))` lists each physician of the rows once, and nothing else |
| Analytics.FillMulti | core/analytics.py:46-52 | the per-physician dictionaries and the nested loops compute the day-major fill |
| Analytics.TimeSeries | core/analytics.py:5-57 | no connection or an empty result gives ([], mode); an exception or an unparseable day gives ([], False); otherwise the densified series and the mode |
| Analytics.Densify | core/analytics.py:34-52 | the series is the single fill in single mode, and the multi fill over some enumeration of the physicians in multi mode |
| Analytics.MultiSeriesShape | core/analytics.py:46-52 | a multi-mode series has one point per (axis day, physician) pair, each once |
| Analytics.StripKeeps | core/database.py:30 | a non-blank character survives `strip()` |
| Analytics.ModeMatchesFilter | core/analytics.py:6-8 | multi mode goes with an IN list (or no physician clause); single mode with one name (or none) |
| Analytics.ModeWithoutList | core/analytics.py:6-8 | the entry ";" turns multi mode on although no physician clause is added |
| Analytics.MeanColumn | core/analytics.py:67-125 | the mean column is called `media_dose` exactly in the dose queries and `media` exactly in the time queries |
| Analytics.PhysicianShape | core/analytics.py:66-88 | the per-physician statistics group by physician and order by their mean column, highest first |
| Analytics.ExamShape | core/analytics.py:104-125 | multi mode groups by exam and physician ordered by exam; single mode groups by exam ordered by its mean column (`media_dose` or `media`) descending |
| Analytics.PhysicianDoseStats | core/analytics.py:59-77 | a connected, successful query returns its fetched rows; no rows otherwise |
| Analytics.ExamDoseStats | core/analytics.py:98-111 | the mode is reported on every path; a connected, successful query returns its fetched rows, no rows otherwise |
| Analytics.ExamTimeStats | core/analytics.py:113-131 | the mode survives a missing connection but not an exception; a connected, successful query returns its fetched rows, no rows otherwise |
| Analytics.ExamStatsModes | core/analytics.py:98-131 | the two exam statistics agree except when the query raises in multi mode |
| Analytics.Substr | core/analytics.py:85 | SQLite `substr` returns at most `len` characters |
| Analytics.DigitPrefix | core/analytics.py:85 | the leading run of digits, up to the first non-digit |
| Analytics.DigitPrefixAll | core/analytics.py:85 | a digit string is its own leading run of digits |
| Analytics.CastInt | core/analytics.py:85 | `CAST(... AS INTEGER)` of a digit string is its value, and of a text not starting with a digit is 0 |
| Analytics.SqlMinutes | core/analytics.py:85 | an HH:MM:SS text with digit fields reads as h*60 + m + s/60 minutes |
| Analytics.MinutesOfDuration | core/analytics.py:85 | below 100 hours, the SQL reading of a stored duration is floor(seconds)/60 minutes |
| Removal.RangeIds | main.py:1788-1789 | a range yields `hi - lo` ids |
| Removal.RangeAt | main.py:1788-1789 | the `k`-th id of a range is `str(lo + k)` |
| Removal.RangeEnds | main.py:1782-1787 | the ends of a range token come out smaller first |
| Removal.EndsOf | main.py:1784-1787 | both ends read as integers, swapped when reversed |
| Removal.NoMinusNotNegative | main.py:1784-1785 | text without a minus never reads as a negative integer |
| Removal.ReadEnds | main.py:1780-1790 | the method computes the token's range ends |
| Removal.ReadRange | main.py:1788-1789 | the loop appends `str(i)` for `i` from `lo` to `hi`, both included |
| Removal.ReadToken | main.py:1778-1794 | the ids one token adds, all of them digit strings |
| Removal.ParseIds | main.py:1773-1794 | the loop builds the id list of the typed text, all of them digit strings |
| Removal.TokenIdsAreDigits | main.py:1780-1794 | every id a token adds is a non-empty run of digits |
| Removal.RangeDigits | main.py:1789 | every id of a range is a non-empty run of digits |
| Removal.RangeEitherOrder | main.py:1786-1787 | a range's ends may be typed in either order |
| Removal.RangeShape | main.py:1780-1783 | "a-b" holds a minus and splits into `a` and `b` |
| Removal.RangeMembers | main.py:1788-1789 | the ids of a range are exactly `str(n)` for `lo <= n < hi` |
| Removal.RangeContents | main.py:1780-1789 | "a-b" with integer ends adds `str(lo)` up to `str(hi)`, both included, ascending |
| Removal.ExampleNegative | main.py:1782-1790 | "-5" adds nothing: the piece before the minus is empty |
| Removal.ExampleTwoDashes | main.py:1783 | "1-2-3" adds nothing |
| Removal.ExampleRange | main.py:1780-1789 | "3-1" adds 1, 2 and 3 |
| Removal.Distinct | main.py:1798 | `set(ids)` holds exactly the ids of the list |
| Removal.ConfirmRemoval | main.py:1766-1802 | an empty entry does nothing; otherwise the count is the number of distinct typed ids whose deletion succeeds |
| Removal.DeleteEach | main.py:1800-1802 | the loop counts the distinct ids whose deletion succeeds |
| Removal.RemovedBound | main.py:1797-1802 | the count never exceeds the number of distinct ids, and reaches it when every deletion succeeds |
| Paging.Offset | main.py:1552 | the offset is a multiple of 15 that gives the page back |
| Paging.PrevDisabled | main.py:1599 | the back arrow is disabled exactly on the page whose offset is 0 |
| Paging.NextDisabled | main.py:1600 | the next arrow is disabled exactly when this page reaches the last row |
| Paging.TotalPages | main.py:1597 | at least one page; one page for no rows; otherwise the fewest pages of 15 that hold every row |
| Paging.PageRows | core/database.py:88-91 | a page shows at most 15 rows |
| Paging.RowOnOnePage | main.py:1552-1597 | every row lies on exactly one page, within the page count |
| Paging.PagesPrefix | main.py:1552 | the first `n` pages hold the first 15·n rows, or all of them |
| Paging.PagesCoverRows | main.py:1552-1597 | paging through every page shows every row once, in order |
| Paging.NextEnabledIffMoreRows | main.py:1597-1600 | the next arrow is enabled exactly when the next page has rows |
| Paging.EarlierPagesFull | main.py:1597 | every page before the last is full |
| Paging.Stepped | main.py:2086-2087 | `max(1, page + d)`: never below 1, and `page + d` when that is at least 1 |
| Paging.BackThenForward | main.py:2084-2087 | back then forward returns to the page, except from page 1 |
| Paging.BackFromFirst | main.py:2084-2087 | back on page 1 stays on page 1, where that arrow is disabled |
| Paging.Pager.constructor | main.py:31 | the page starts at 1 |
| Paging.Pager.Change | main.py:2084-2087 | the page becomes `max(1, page + d)` |
| Paging.Pager.Reset | main.py:2076-2078 | filtering or clearing the filters returns to page 1 |
| Paging.Pager.QueryOffset | main.py:1552 | the offset is (page − 1)·15, never negative |
| DoseBands.DoseValue | main.py:1561-1564 | an empty cell reads as 0.0; a cell that `float` reads once its comma becomes a point has exactly that value; any other value that is not 0.0 comes from such a reading |
| DoseBands.BandOf | main.py:1566-1577 | no warning exactly below 1000, red exactly from 5000 |
| DoseBands.Colour | main.py:1566-1577 | a colour exists for every band except no warning |
| DoseBands.Reached | main.py:1566-1575 | the number of thresholds reached is at most the number of thresholds |
| DoseBands.SeverityCountsThresholds | main.py:1566-1577 | a band's severity is the number of thresholds (1000 … 5000) the dose has reached |
| DoseBands.BandMonotone | main.py:1566-1577 | a higher dose never gets a milder band |
| DoseBands.ReachedMonotone | main.py:1566-1575 | a higher dose reaches at least as many thresholds |
| DoseBands.WarningFromOneThousand | main.py:1566-1579 | a warning is shown exactly when the dose is at least 1000 |
| DoseBands.UnreadableNoWarning | main.py:1561-1577 | a cell without digits, an empty cell included, reads as 0.0 and carries no warning |
| DoseBands.DecimalComma | main.py:1562 | a dose written with a decimal comma reads as the integer part plus the fraction |
| DoseBands.CommaToPoint | main.py:1562 | replacing the comma gives the point-written numeral |
| DoseBands.ExampleCommaDose | main.py:1562-1567 | "1500,5" reads as 1500.5 and is shown purple (#8F00FF) |
| DoseBands.DecimalPoint | main.py:1562 | a dose already written with a decimal point reads as the integer part plus the fraction |
| DoseBands.ExamplePointDose | main.py:1562-1567 | "1500.5" reads as 1500.5 and is shown purple (#8F00FF) |
| Upload.UploadAccumulator.constructor | main.py:1326-1331 | the four-slot dictionary starts at 0.0 everywhere |
| Upload.ReadUploadItem | main.py:1335-1347 | one item's own step writes the three slots as the importer's step does and never TempoAcq |
| Upload.ExtractUpload | main.py:1333-1350 | the upload walker writes Dose, DAP and TempoFluoro as the importer's walk specifies, and never writes TempoAcq |
| Upload.UploadRecord | main.py:1352-1370 | the stored duration formats TempoFluoro + TempoAcq; dose ×1000 and DAP ×10^6 |
| Upload.UploadFile | main.py:1308-1382 | one file yields the record of a readable SR document, or nothing |
| Upload.UploadExams | main.py:1304-1382 | the loop offers the records of the readable SR documents, in order |
| Upload.UploadRecordIsCoreRecord | main.py:1360-1365 | with TempoAcq at 0.0 the upload's record is the importer's record |
| Upload.UploadOffersCoreRecords | main.py:1304-1382 | the upload run offers exactly the records the importer offers, file by file |
| Upload.StoredTimeIsFluoroSum | main.py:1326-1363 | a document's stored duration is the formatted sum of its 113730 values alone |
| Upload.AcquisitionTimeDropped | main.py:1344-1345 | an item carrying Total Acquisition Time (113855) changes no slot |

## Left out

- SQLite is not modelled: the connection, query execution, REPLACE/AVG/MIN/MAX, GROUP BY, ORDER BY, the insert/update/delete/fetch calls and the exam and equipment type tables. Grouped rows and query failures are inputs; the insert reply and the delete call are inputs.
- pydicom reading and `os.walk` are not modelled: a file is an abstract outcome, unreadable or an abstract dataset, and the walk order is the order of the input sequence.
- The Flet UI is not modelled: snackbars, dialogs, table cells, `atualizar_tudo` and chart refresh. Nor are matplotlib charts, PDF and CSV export, or the global variables, which are parameters here.
- IEEE floating point: doses, DAPs and times are exact reals. `round(x, 2)`, and the rounding inside `* 1000`, `* 1e6`, `divmod` and `/ 60`, are not modelled.
- Python's `isdigit`, `upper`, `int()` and `float()` are taken as ASCII-only, so a non-ASCII decimal digit such as `int("١")` reads as nothing here (the whitespace set of `strip` and `split` is Python's full `str.isspace` set), and `int()`/`float()` accept no underscores, exponents, `inf` or `nan`.
- Calendar.ParseIso: `strptime` is modelled strictly (4-2-2 digit fields); Python also accepts one-digit months and days, which SQLite `date()` never produces.
- Analytics.SqlMinutes: SQLite CAST of a text is modelled as its leading digit run; durations of 100 hours or more (where HH:MM:SS outgrows its columns) are not related to `tempo_para_minutos`.
- A NULL `date(data)` in a grouped row (SQLite's reading of a stored date that is not a calendar date, which the importer can store) is written as the empty text. It sorts first and does not parse, so the series is `([], False)` as when `min(datas)` raises on None in the source (`Analytics.NullDayNoSpan`).
- Analytics.DistinctPhysicians: the order of `list(set(...))` is unspecified in the source, so the contract states only that each physician appears once.
- Removal.ConfirmRemoval: the delete call is a pure function of the id, so the model does not capture an outcome that depends on the order of `set` iteration (such as "7" and "07" naming the same row). The "invalid range" snackbar is not modelled.
- DoseTable.ExtractValues: `NumericValue` is stored as given; the model reads it as a real number.
- DoseBands.Colour: Flet colour constants are modelled by their names as strings.
- Paging.Pager: the page is not clamped above the page count, as in the source; the text "Página x de y" is not modelled.
- Upload.UploadExams: an exception raised after the insert (by the UI refresh) is not modelled.
- The current date is a parameter, and the duplicate copies in `main.py` of the filter builder, the time series, the statistics and `identificar_medico` are modelled once.
