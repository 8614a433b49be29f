# track: a verified model of the time-tracking log

track records the time spent on a project in a times file. This is a text
file of comma-separated rows. `begin` appends a row holding the current time.
`end` completes the last row by adding the time it ends. `next` does
whichever of the two is due. `total` adds up the durations of the complete
rows.

This project models the core of `main.go`:
- `readEntries`, the log validator, and the `FormatError` report it returns.
- `spokenList`, which writes the report's line numbers in English.
- `beginEntry`.
- `endEntry`, with its in-place rewrite of the last line.
- The dispatch rule of `next` and the strict mode of `end`.
- The summation loop of `total`, with `duration`.

## Layout

- **`wrappers.dfy`** (`Wrappers`): `Option`.
- **`csv.dfy`** (`Csv`): the rows of the file as the comma-separated reader and writer see them.
  - The reader splits the text into lines at LF and skips empty lines. It accepts a last line without an LF. It splits each line into fields at `,`, and a row may have any number of fields.
  - A text holding `"` or CR is outside the modelled subset and reads as a failure.
  - The writer follows the writer's quoting rule.
  - The round trip between writer and reader is proved here.
- **`spoken.dfy`** (`Spoken`): decimal rendering of integers, and `spokenList` as a loop, proved against the English-list function `Spoken`.
- **`validator.dfy`** (`Validator`): `FormatError`, `JustIncomplete` and the error texts. `readEntries` is a method made of its two loops: classifying the rows, then filling the filtered slice. They are proved against `BadLines`, `LastIsBad` and `GoodRows`. The properties of the report are lemmas here.
- **`mutators.dfy`** (`Mutators`): what `beginEntry`, `endEntry` and `next` do, as functions of the file's text. Each returns an `Outcome`: the error, the new text and the lines printed. The current time is the parameter `now`. Lemmas cover each command's refusals and the rows the file holds afterwards, including `begin` followed by `end` and `next` run twice.
- **`aggregate.dfy`** (`Aggregate`):
  - `duration` as a saturating 64-bit difference.
  - The loop of `total` as a method, proved equal to the wrapped 64-bit sum of the durations.
  - Independence of the entries' order.
  - The sign finding below.
- **`track.dfy`** (`Track`): class `TimesFile`. It holds the text of the open file and the lines printed so far.
  - `BeginEntry`, `EndEntry`, `Next`, `End` and `Total` update it in place, as the commands do.
  - `EndEntry` seeks back from the end and overwrites.
  - Each method's postcondition sets the new state equal to the matching `Mutators` function of the old state.

**Time.** Instants are parameters:
- `now` is the text `currentTime` would return.
- `seconds: string -> int` stands for parsing a timestamp. A timestamp that does not parse gets whatever value `seconds` gives it, standing for the zero time the source falls back to.
- A duration is a count of nanoseconds:
  - `Second` is 10^9.
  - The difference of two instants saturates at the bounds of a signed 64-bit integer, as `time.Time.Sub` does.
  - The running sum wraps around modulo 2^64, as `+=` on `time.Duration` does.

**Points of main.go the model keeps as they are:**
- **Well-formed rows.** A row is well formed only when it has exactly two fields (main.go:278). An open one-field row is reported as bad, and it is tolerated only as the just-incomplete case.
- **Direction of `duration`.** A duration is computed as start minus end (main.go:163 and main.go:368-372); see Findings.
- **`total`'s sum.** `total` computes its sum and then drops it. The model returns it from `TimesFile.Total`, so that the loop's result can be stated.

## Model

| member | source | states |
|---|---|---|
| Csv.IndexOf | main.go:268-273 | the position found holds the separator and no earlier position does |
| Csv.IndexOfUnique | main.go:268-273 | the first occurrence of a separator is unique |
| Csv.Split | main.go:268-273 | a split has at least one part and no part contains the separator |
| Csv.SplitJoin | main.go:268-273 | splitting the fields the writer joined gives those fields back |
| Csv.JoinSplit | main.go:268-273 | joining the parts of a split gives the text back |
| Csv.JoinExcludes | main.go:317-319 | a character in no field and unlike the separator is absent from the joined line |
| Csv.Records | main.go:268-273 | every record read has at least one field |
| Csv.SplitExcludes | main.go:268-273 | splitting a line gives no field holding a character the line does not hold |
| Csv.RecordsFields | main.go:268-273 | no field read holds a comma or an LF |
| Csv.RecordsConcat | main.go:268-273 | the records of complete lines are not changed by what is written after them |
| Csv.RecordsOfLine | main.go:268-273 | one complete non-empty line is exactly one record |
| Csv.RecordsNewline | main.go:268-273 | an extra LF adds no record: empty lines are skipped and an unterminated last line is read whole |
| Csv.Escape | main.go:317-319 | escaping never shortens a field |
| Csv.EncodeField | main.go:317-319 | a field that needs no quotes is written unchanged |
| Csv.EncodeRowBare | main.go:317-319 | a row of fields that need no quotes is written as the fields joined by commas and an LF |
| Csv.EncodedRowReadsBack | main.go:317-319 | a row the writer emits bare is one complete line of the subset and reads back as itself |
| Csv.AppendRecord | main.go:317-319 | appending one complete line to complete lines appends exactly its record |
| Csv.LogRoundTrip | main.go:268-273 | reading what the writer wrote for a sequence of rows gives the rows back |
| Spoken.Digit | main.go:353 | a digit is written as a character from '0' to '9' |
| Spoken.NatToString | main.go:353 | the decimal text of a natural number is non-empty and made of digits |
| Spoken.DecimalRoundTrip | main.go:353 | reading back the decimal text of n gives n |
| Spoken.IntToString | main.go:353 | an integer's text is non-empty, has no comma or space, and is all digits exactly when the integer is not negative |
| Spoken.SpokenList | main.go:350-365 | the buffer loop produces the English list: one item, "a and b", or "a, b, and c" |
| Spoken.CommaListStep | main.go:352-355 | each further item is written after ", " |
| Spoken.SpokenLast | main.go:356-362 | the last item follows " and " when there are two items and ", and " when there are more |
| Spoken.CommasConcat | main.go:350-365 | commas in a concatenation add up |
| Spoken.NoCommas | main.go:350-365 | a text without ',' counts no commas |
| Spoken.CommaListCommas | main.go:354-355 | n items written with ", " between them carry n - 1 commas |
| Spoken.Separators | main.go:355-360 | ", " and ", and " carry one comma each and " and " none |
| Spoken.SpokenCommas | main.go:350-365 | a list of three or more items carries one comma per gap, and a shorter one none |
| Spoken.OneDigit | main.go:353 | a one-digit number is written as that digit |
| Spoken.SpokenExamples | main.go:350-365 | [] gives "", [5] gives "5", [5, 6] gives "5 and 6" |
| Spoken.SpokenExampleThree | main.go:350-365 | [5, 6, 7] gives "5, 6, and 7" |
| Validator.FormatError.Message | main.go:33-43 | the error text is "last entry is incomplete" exactly when the report is just incomplete |
| Validator.BadLines | main.go:276-287 | no more line numbers are reported than there are rows |
| Validator.GoodRows | main.go:291-302 | the filtered rows are no more than the rows, and all have two fields |
| Validator.ReadEntries | main.go:267-306 | the error is the read failure or the report of the bad rows; the rows are all rows, or the good ones when filtering and some row is bad |
| Validator.Classify | main.go:276-287 | the loop collects the 1-based numbers of the rows without two fields, and whether the last row is one of them |
| Validator.KeepGood | main.go:291-302 | the slice of len(entries) - len(BadLines) rows is filled with exactly the good rows, in order |
| Validator.BadLinesMembers | main.go:276-287 | a line number is reported exactly when that row does not have two fields |
| Validator.BadLinesIncreasing | main.go:276-287 | the reported line numbers are strictly increasing |
| Validator.LastIsBadIsLastLine | main.go:279-285 | LastIsBad holds exactly when the last reported number is the number of the last row |
| Validator.NoErrorIffAllGood | main.go:288-289 | there is no report exactly when every row has two fields |
| Validator.JustIncompleteIff | main.go:29-31 | the report is just incomplete exactly when the last row is bad and every earlier row is good |
| Validator.GoodRowsCount | main.go:292 | the number of good rows is the number of rows less the number of bad lines, so the slice is filled exactly |
| Validator.GoodRowsConcat | main.go:295-300 | filtering distributes over concatenation, so it keeps the order of the rows |
| Validator.GoodRowsPrefix | main.go:295-300 | a prefix has no more good rows than the whole, so the slice index stays in bounds |
| Validator.GoodRowsMembers | main.go:295-300 | a row survives filtering exactly when it is a row of the file with two fields |
| Validator.GoodRowsOfGood | main.go:291-302 | filtering leaves a log of good rows unchanged |
| Validator.EntriesContract | main.go:267-306 | error exactly for a bad row; without filter all rows come back; with filter exactly the good rows, len(rows) - len(BadLines) of them |
| Mutators.Overwrite | main.go:337-339 | writing at a position keeps the bytes before it, puts the data there, keeps any bytes after it, and grows the file when the data runs past the end |
| Mutators.RewriteOffset | main.go:336 | the rewrite starts len(last[0]) + 1 bytes before the end, or at the end when that seek would go before the start |
| Mutators.RewriteReachesEnd | main.go:335-339 | the completed row is longer than the stretch it starts over, so no byte of the old file is left after it |
| Mutators.SingleFieldLine | main.go:317-319 | the row begin writes is the timestamp on a line of its own |
| Mutators.AppendLine | main.go:317-319 | after begin's line, a file of complete lines reads as its old rows and the row [now] |
| Mutators.AppendClosedLine | main.go:337-339 | the line `start,now` read after complete lines adds the row [start, now] |
| Mutators.OpenLineReport | main.go:276-290 | complete rows followed by begin's line are reported as one bad line, the last, that is, just incomplete |
| Mutators.OpenTailError | main.go:276-290 | a file read as complete rows and one bad last row gives that report as readEntries' error |
| Mutators.OpenTailReport | main.go:276-290 | good rows followed by one bad row give the report [n + 1] with the last row bad |
| Mutators.ClosedTailGood | main.go:288-289 | good rows followed by one more good row give no report |
| Mutators.BeginRefusal | main.go:309-313 | begin refuses exactly on a read failure or, in strict mode, on a bad row; it then returns that error and changes and prints nothing |
| Mutators.BeginAppendsEntry | main.go:317-319 | when begin succeeds on a file ending in LF, the file reads back as the old rows and then [now] |
| Mutators.BeginOnGoodLog | main.go:308-322 | on a log of complete rows begin succeeds, appends the line `now` and prints only BEGIN |
| Mutators.BeginOnIncomplete | main.go:308-322 | on a just-incomplete log strict mode refuses; otherwise begin warns and appends |
| Mutators.BeginTwice | main.go:308-322 | a second begin meets the first one's open entry: strict mode refuses, otherwise a warning and a second open entry |
| Mutators.EndRefusal | main.go:324-347 | end refuses with no change when nothing is bad (no incomplete entry), when the last row is good, or in strict mode when other rows are bad too |
| Mutators.EndWithoutOpenEntry | main.go:344-346 | on a log of complete rows, an empty one included, end reports that there is no incomplete entry |
| Mutators.EndOnBadLast | main.go:326-339 | with a bad last row, end proceeds unless strict mode meets other bad rows, and then writes the rewrite of that row |
| Mutators.EndWarning | main.go:328-333 | end warns only when rows other than the last are bad, and prints END unless quiet |
| Mutators.RewriteOpenLine | main.go:335-339 | over begin's line the rewrite leaves every earlier byte and turns the line into `s,now` |
| Mutators.EndOpenLineRefusal | main.go:327-331 | on a file ending in begin's line, strict end proceeds exactly when every earlier row is complete; the other mode always proceeds |
| Mutators.EndClosesEntry | main.go:335-341 | ending begin's line yields the same earlier bytes and the line `s,now`, and the file reads as the same rows with now added to the last |
| Mutators.EndAfterBegin | main.go:324-347 | end right after begin on complete rows succeeds in either mode, prints only END and turns `start` into `start,stop` |
| Mutators.ClosedLogGood | main.go:276-290 | after end the log reads as the old rows and [start, stop] and has no bad row |
| Mutators.NextEndsOpenEntry | main.go:188-191 | when the last row is bad, next is end |
| Mutators.NextBeginsOtherwise | main.go:192-199 | otherwise next is begin, unless strict mode meets a bad row, whose report it returns without change |
| Mutators.NextReadFailure | main.go:188-196 | a read failure stops next with that error and no change |
| Mutators.NextTwice | main.go:179-199 | next on complete rows begins an entry, and next again ends it |
| Aggregate.Saturate | main.go:371 | the difference is the exact one inside the 64-bit range, the nearest bound outside it, and keeps its sign |
| Aggregate.Wrap | main.go:163 | the 64-bit sum is in range and equals the exact sum when that is in range |
| Aggregate.WrapAdd | main.go:161-164 | wrapping after every addition gives the same result as wrapping once at the end |
| Aggregate.Duration | main.go:368-372 | duration(a, b) is the time from b to a in nanoseconds, negative exactly when a is earlier, saturated at 64 bits |
| Aggregate.SumDurations | main.go:161-164 | the loop's sum is the exact sum of duration(entry[0], entry[1]) over the entries, wrapped to 64 bits |
| Aggregate.SumConcat | main.go:161-164 | the sum over a concatenation is the sum of the sums |
| Aggregate.SumPermutation | main.go:161-164 | reordering the entries does not change the total |
| Aggregate.RemoveOne | main.go:161-164 | removing one entry removes one copy of it from the multiset of entries |
| Aggregate.SumWithout | main.go:161-164 | removing one entry subtracts its duration from the total |
| Aggregate.MatchLast | main.go:161-164 | the last entry occurs in any reordering of the entries, and the entries left on both sides are again reorderings of each other |
| Aggregate.WrappedSumPermutation | main.go:161-164 | the 64-bit total of any reordering of the entries is the same |
| Aggregate.SumNotPositive | main.go:163 | as written, a log of entries whose end is not before their start never totals more than zero |
| Aggregate.HourEntryCountsNegative | main.go:163 | as written, an entry from start to start + 1h counts as minus one hour |
| Aggregate.Elapsed | main.go:368-372 | the intended duration of an entry, from start to end, is non-negative exactly when the entry is ordered |
| Aggregate.ElapsedSumNotNegative | main.go:161-164 | the intended total of ordered entries is never negative |
| Aggregate.SumNegatesElapsed | main.go:161-164 | away from the 64-bit bounds the total as written is exactly the intended total negated |
| Track.TimesFile.constructor | main.go:169-176 | an opened file holds its contents and nothing has been printed yet |
| Track.TimesFile.Inform | main.go:250-254 | the line is printed unless quiet and the file is unchanged |
| Track.TimesFile.BeginEntry | main.go:308-322 | the error, the new file and the printed lines are those of Mutators.Begin on the old file |
| Track.TimesFile.EndEntry | main.go:324-347 | the error, the new file and the printed lines are those of Mutators.End on the old file |
| Track.TimesFile.RewindAndWrite | main.go:335-339 | seeking len(last[0]) + 1 bytes back from the end, or staying at the end when that fails, and writing the row, leaves Overwrite of the file at RewriteOffset |
| Track.TimesFile.Next | main.go:179-199 | the error, the new file and the printed lines are those of Mutators.Next on the old file |
| Track.TimesFile.End | main.go:202-210 | end runs endEntry in strict mode whatever the fail flag |
| Track.TimesFile.Total | main.go:142-167 | a read failure, or in strict mode a report other than just incomplete, is returned; otherwise a report is a warning and the sum is the 64-bit total over the good rows; the file is unchanged |
| Track.GoodEntries | main.go:291-302 | with filtering, every row returned has two fields |

## Left out

- **The comma-separated reader's full format.** Quoted fields, CRLF line ends, leading-space handling and the reader's own errors are left out. A text holding `"` or CR is treated as a read failure, and the error is passed on unchanged, as the source passes the reader's error on.
- **Bytes.** The file is a sequence of characters, one per byte. The timestamps the program writes are ASCII.
- **Real time.** `currentTime` and `time.Parse` are not modelled. The current time is the parameter `now`, and parsing is the parameter `seconds`, a whole number of seconds.
- **Opening files.** The command wrappers' opening of the file (`os.Open`, `os.OpenFile` with create) and their open errors are left out. `defer f.Close()` and `Seek(0, 0)` in `next` become reading the text again from the start.
- **Write errors.** The source ignores write and flush errors from the writer, and the model's writes always succeed.
- **The rest of main.go.** `main`, `which`, `init`, `Help`, `Wait`, `Run` and `Fork` are left out: they handle signals, process creation and the command line. `Verify`, `Status`, `List` and `Clean` are stubs that do nothing and are not modelled.
- **Concurrency.** Concurrent writers on the same file are not modelled, and the program does not guard against them.
- **Printing.** Printing is modelled as a log of `Output` values. A warning holds its `FormatError`, and its text is "Warning: " followed by `Message()`.
- Validator.FormatError.Message: its contract distinguishes only the "last entry is incomplete" text. The two "incomplete or invalid" texts are given by its body, and no lemma covers them.
- Mutators.BeginAppendsEntry: requires the file to end in LF. On a file whose last line lacks one, `Begin` appends the new line to that line, as the source does, but no lemma describes the rows that result.
- Mutators.EndClosesEntry: proved only for a file whose last line is the one `begin` wrote. For any other bad last row (three fields, an unterminated line), `Rewrite` follows the source's byte arithmetic, but no lemma describes the rows that result.
- Track.TimesFile.Total: returns the sum the source discards, and sums with `duration` as written (start minus end), as the source does.

## Findings

| source | as written | input that shows it | evidently intended | confidence | as-written member | corrected member |
|---|---|---|---|---|---|---|
| main.go:163, main.go:368-372 | `total` adds `duration(entry[0], entry[1])`, and `duration(a, b)` is `a - b`, so each entry counts as start minus end | the row [start, end] with end one hour after start adds -1h to the total; a log of such rows never totals more than zero | each entry counts as end minus start, so the total of ordered entries is never negative | not executed; high, the sign follows from `time.Time.Sub` | Aggregate.HourEntryCountsNegative, Aggregate.SumNotPositive | Aggregate.ElapsedSumNotNegative, Aggregate.Elapsed |
