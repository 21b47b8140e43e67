# ADIF log reader

A Dafny model of the ADIF (Amateur Data Interchange Format) reader of
k2ack/azmap, class `ADIFReader` in `adif.py`. ADIF is the text format
in which amateur-radio logging programs exchange their logs of contacts
(QSOs). A log is a run of tags `<name:length>value`. `<eor>` ends a
record and `<eoh>` ends the header.

The reader has two parts:

- `load` scans the text tag by tag. It keeps these as state:
  - a scan position;
  - the records emitted so far;
  - a staging record;
  - the reader's record counter `rec_no`.
- `adifFixup` runs on each staging record before it is emitted. It
  coerces the values:
  - dates, times and frequencies first;
  - then the integer fields, where a failed conversion degrades to -1
    and is logged.

## Modules

- `Wrappers`: `Option` and `Result`.
- `Text`: the Python string operations the reader uses, on `seq<char>`:
  - `str.find` and ASCII `lower`;
  - `split(':')` with its inverse `Join`;
  - `replace('&lt;', '<')` with its inverse `EncodeLt`;
  - slicing with Python's clamping;
  - `sorted` over code points.
- `Numbers`: the syntax that Python's `int()` and `float()` accept, and
  printing of naturals and integers.
- `Strptime`: `datetime.strptime` for the formats `%Y%m%d`, `%H%M` and
  `%H%M%S`.
  - It models the regular expressions CPython builds for these
    directives, with their first-match backtracking.
  - It rejects leftover text ("unconverted data remains").
  - It applies the range checks of `datetime.date` and `datetime.time`.
- `Adif`: the reader itself.
  - Values, records, errors and diagnostics.
  - Specification functions for one key of the fix-up (`CoerceOne`),
    its two loops (`CoerceKeys`, `ConvertInts`), one tag (`Tag`) and
    the whole scan (`Scan`).
  - The class `ADIFReader`. It has the record counter `recNo` and the
    error log `diagnostics`. Its methods `AdifFixup`, `CoerceFields`,
    `ConvertIntFields` and `Load` are loops proved against those
    functions.
- `ScanProperties`: what a load does.
  - Records come only from `<eor>`, and the counter counts them.
  - Only the records after the last `<eoh>` survive.
  - A field tag stores the lower-cased name and the decoded slice.
  - A tag without a length changes nothing.
  - The result does not depend on the counter or the log.
- `FixupProperties`: what the fix-up does.
  - It keeps the key set.
  - It leaves plain fields alone.
  - It converts dates, times, frequencies and integer fields.
  - It fails on malformed dates, times and frequencies.
  - It logs exactly the unconvertible integer fields.
- `WrittenRecords`: a writer against the reader.
  - A writer emits each field as `<name:n>` followed by its
    `&lt;`-encoded value, `n` being the encoded length.
  - Any run of such fields closed by `<eor>` loads back as one record:
    the fields staged in order, the last value winning under each
    lower-cased name, then fixed up.
  - Free text without `<`, header fields and `<eoh>` in front of the
    record change nothing.
- `Examples`: concrete outcomes.
  - Values of the sample QSO of the repository's tests (adif.py:126-128):
    the date 2013-05-27, the time 08:31:00, and the integer fields
    `dxcc` 291, `cqz` 3, `ituz` 6 and `tx_pwr` 100.
  - Texts that are not in that sample, chosen to reach the other branches
    of the fix-up: a transmit power `Unknown` and a `cqz` of `notanum`.
  - The empty log of the null test.

## Behaviour of the code the model keeps

- **Header skip.** The search for the end of the header (adif.py:82)
  looks for the empty pattern. That always matches at 0, so scanning
  starts at position 0. Header fields are discarded only by the `eoh`
  branch of the loop.
- **Scan position after a field.** After a field the scan resumes at
  the tag's `>` (adif.py:105, 115), not after the value. So a `<`
  inside a value is read as a tag.
- **Non-numeric length.** A length that is not an integer makes `int()`
  raise (adif.py:113). The model ends the load with `BadLength`; it
  does not skip the field.
- **`time_` value of any other length.** A `time_` value whose length is
  not 3 to 6 reuses the format an earlier `time_` key chose in the same
  fix-up. With no earlier one, the format is unbound and the fix-up
  fails with `UnboundFormat`.
- **Record number.** `rec_no` lives on the reader. It counts every
  `eor` ever read, including those before an `eoh` and those of
  earlier loads. It is not reset by a load.

## Model

| member | source | states |
|---|---|---|
| Adif.ADIFReader.constructor | adif.py:32-34 | a new reader has record counter 0 and an empty log |
| Adif.ADIFReader.Load | adif.py:74-116 | the returned records or error, the new counter and the log are exactly those of the scan specification `Scan` from position 0, starting from an empty output, an empty staging record and the reader's current counter and log |
| Adif.ADIFReader.AdifFixup | adif.py:35-71 | the fixed-up record or error is that of `Fixed` (sorted-key coercion, then integer conversion), and the log grows by exactly the fix-up's diagnostics |
| Adif.ADIFReader.CoerceFields | adif.py:43-60 | the loop over the keys in sorted order, carrying the time format from key to key, returns what `CoerceKeys` gives for all sorted keys with no format chosen yet |
| Adif.ADIFReader.ConvertIntFields | adif.py:62-70 | the loop over the integer fields returns the record of `ConvertInts`; each unconvertible field appends one diagnostic, in field order |
| Adif.FormatFor | adif.py:48-55 | a `time_` value of length 3 to 6 selects a format, `%H%M%S` exactly for lengths 5 and 6; any other length keeps the format chosen for an earlier key |
| Adif.CoerceOne | adif.py:44-60 | a key with none of the special names keeps its value; a value still text afterwards is unchanged; only a `time_` key that becomes a time can change the carried format |
| Adif.CoerceKeys | adif.py:43-60 | the first loop keeps the record's key set and leaves every key it does not visit alone |
| Adif.ConvertIntsShape | adif.py:62-70 | the integer loop `ConvertInts` keeps the key set and logs at most one diagnostic per listed field, each naming a listed field and this record's number |
| Adif.FixedShape | adif.py:35-71 | the whole fix-up `Fixed` keeps the key set and logs at most one diagnostic per integer field, each naming an integer field and this record's number |
| Adif.FieldValue | adif.py:114 | a field's value is never longer than the input, nor longer than the given length |
| Adif.TagStep | adif.py:97-115 | a tag `Tag` that ends the load ends it with an error and keeps the counter; otherwise the counter goes up by at most one; either way the log only grows |
| Adif.ScanGrows | adif.py:89-115 | the scan `Scan` never lowers the counter and only appends to the log, whether the load succeeds or fails |
| Adif.FieldDef | adif.py:97 | splitting a field definition on `:` gives at least one part |
| Adif.CoerceKeysAt | adif.py:43-60 | one iteration of the sorted-key loop: the rest of the loop from key `i` is the coercion of key `i` followed by the rest from `i + 1` |
| Adif.ConvertIntsAt | adif.py:62-70 | one iteration of the integer loop, by cases: absent or already integer (skipped), convertible text (replaced by its integer), unconvertible text (replaced by -1 and logged), any other value (error) |
| Text.Find | adif.py:91-94 | `str.find`: -1 exactly when the character does not occur from `from` on; otherwise the first occurrence at or after `from` |
| Text.Lower | adif.py:98 | ASCII lower-casing keeps the length and lower-cases each character |
| Text.Split | adif.py:97 | `split` gives at least one part, no part holds the separator, and joining the parts gives back the text |
| Text.SplitJoin | adif.py:97 | splitting the join of separator-free parts gives the parts back, the other half of the round trip |
| Text.SplitAtFirst | adif.py:97-98 | the text before the first separator is the first part and the rest is split on |
| Text.EncodeLt | adif.py:114 | the writer's encoding of a value leaves no `<` in it |
| Text.DecodeLt | adif.py:114 | replacing `&lt;` by `<` never lengthens the text |
| Text.DecodeEncode | adif.py:114 | decoding the encoding of a value that does not itself spell `&lt;` gives the value back |
| Text.DecodeWithoutEntity | adif.py:114 | text without `&lt;` is unchanged by the replacement |
| Text.PySlice | adif.py:114 | a Python slice never exceeds the text |
| Text.PySliceFrom | adif.py:114 | a slice from a valid start is the subsequence up to the stop, clamped at the end of the text |
| Text.SortedKeys | adif.py:43 | the sorted keys hold every key of the record once |
| Text.SortedKeysSorted | adif.py:43 | the keys come in strictly increasing code-point order |
| Text.StrLeTotal | adif.py:43 | the code-point order on strings is total |
| Text.StrLeAntisymmetric | adif.py:43 | the order is antisymmetric |
| Text.StrLeTransitive | adif.py:43 | the order is transitive |
| Text.LeastExists | adif.py:43 | every non-empty key set has a least key, so `sorted` is defined |
| Text.LowerIsWord | adif.py:98 | a text lower-cases to a given lower-case word exactly when each character is that letter in either case |
| Text.EorAnyCase | adif.py:99 | a tag name is `eor` after lower-casing exactly when it is e/E, o/O, r/R |
| Text.EohAnyCase | adif.py:106 | a tag name is `eoh` after lower-casing exactly when it is e/E, o/O, h/H |
| Text.LowerIdempotent | adif.py:98 | lower-casing twice is lower-casing once |
| Text.EncodeWithoutLt | adif.py:114 | a value without `<` is written as it is |
| Numbers.ShowNat | adif.py:113 | the decimal digits of a natural are non-empty digits whose value is that natural |
| Numbers.ParseDigits | adif.py:66 | `int()` of a non-empty run of ASCII digits is their decimal value |
| Numbers.ParseShowInt | adif.py:66 | `int()` reads back every printed integer, negative ones included |
| Numbers.IntLiteralIsFloatLiteral | adif.py:47 | every text `int()` accepts is also accepted by `float()` |
| Numbers.NotIntegers | adif.py:57-70 | `unknown` and `notanum` are not integers, so without the fix-up table they would become -1 through the failure path |
| Numbers.NotDigitsNotInteger | adif.py:66-70 | a text starting with an ASCII letter of either case is not an integer, whatever follows |
| Numbers.ParseInt | adif.py:66 | when `int()` accepts a text, the stripped text is an optional sign followed by digits, at least one digit, and a negative result comes from a leading `-` |
| Numbers.MantissaStart | adif.py:47 | a mantissa is not empty and starts with a digit or the point |
| Numbers.FloatLiteralStart | adif.py:47 | a text `float()` accepts is not blank, and after its optional sign it starts with a digit, the point, or the `i` / `n` of `inf`, `infinity` or `nan` in either case |
| Numbers.StripUnspaced | adif.py:66 | the whitespace strip of `int()` keeps text with no surrounding spaces |
| Strptime.MatchFrom | adif.py:45-55 | a match of the directives from `i` yields one group per directive and ends between `i` and the end of the text |
| Strptime.TryEach | adif.py:45-55 | a match that starts with one of a directive's alternatives yields one group for it and one per remaining directive, and ends within the text |
| Strptime.Strptime | adif.py:45-55 | an accepted text yields exactly one group per directive |
| Strptime.MatchFromTiles | adif.py:45-55 | the groups of a match, joined, are exactly the text it consumes |
| Strptime.TryEachTiles | adif.py:45-55 | the same for a match that starts with the first fitting alternative |
| Strptime.StrptimeTiles | adif.py:45-55 | the groups of an accepted text, joined, are the whole text |
| Strptime.ParseDate | adif.py:45 | a date `strptime` accepts is a valid calendar date: month 1-12, day within the month, leap years included |
| Strptime.ParseTime | adif.py:55 | a time `strptime` accepts has hour 0-23, minute and second 0-59 |
| Strptime.DateFixedWidth | adif.py:44-45 | eight digits YYYYMMDD forming a valid date parse as that date |
| Strptime.TimeFourDigits | adif.py:53-55 | four digits HHMM within range parse as that time with seconds 0 |
| Strptime.TimeSixDigits | adif.py:51-55 | six digits HHMMSS within range parse as that time |
| Strptime.TwoDigitGroups | adif.py:45 | `%Y%m%d` on eight digits takes four, two and two digits |
| Strptime.ClockGroupsHM | adif.py:54-55 | `%H%M` on four in-range digits takes two and two |
| Strptime.ClockGroupsHMS | adif.py:52-55 | `%H%M%S` on six in-range digits takes two, two and two |
| Strptime.PickAlternative | adif.py:45-55 | a directive matches with the first of its alternatives that lets the rest of the format match |
| Strptime.TwoDigitField | adif.py:45 | a month or day given as two in-range digits is taken as two digits |
| Strptime.TwoDigitClock | adif.py:55 | an hour, minute or second given as two in-range digits is taken as two digits |
| ScanProperties.NextTag | adif.py:91-94 | the next tag opens with the first `<` at or after the position and closes with the first `>` after it, strictly later |
| ScanProperties.LastEoh | adif.py:106-109 | the last `eoh` tag, if any, closes after the position |
| ScanProperties.ScanAtTag | adif.py:89-115 | the scan at a tag performs that tag's step and resumes at its `>`, or stops with the step's outcome |
| ScanProperties.NoTagNoRecords | adif.py:91-93 | with no `<` left, the load returns the records emitted so far; the staging record is dropped |
| ScanProperties.LoadWithoutTags | adif.py:91-93 | a text with no `<`, the empty text included, loads as no records with the counter and log unchanged |
| ScanProperties.RecNoCountsEors | adif.py:99-102 | after a successful load the counter has gone up by exactly the number of `eor` tags read |
| ScanProperties.RecordsComeFromEors | adif.py:99-101 | with no `eoh` ahead, a successful load emits exactly one record per `eor` tag, after the records it already held |
| ScanProperties.TagKeepsRecords | adif.py:99-115 | a tag other than `eoh` keeps the records emitted so far, and only `eor` adds one |
| ScanProperties.ConvertIntsIgnoresRecNo | adif.py:62-70 | the converted record does not depend on the record number, which only appears in the log |
| ScanProperties.ResultIgnoresCounters | adif.py:74-116 | the records a load returns do not depend on the counter and log it starts with |
| ScanProperties.FixedIgnoresRecNo | adif.py:35-71 | the fixed-up record does not depend on the record number |
| ScanProperties.LastEohIsLast | adif.py:106-109 | after the last `eoh` there is no other |
| ScanProperties.OutputAfterLastEoh | adif.py:106-109 | a successful load returns what a fresh scan from the last `eoh` returns, so nothing before it, header fields included, reaches the output |
| ScanProperties.LoadRecordCount | adif.py:99-109 | a successful load returns as many records as there are `eor` tags after the last `eoh`, or in the whole text when there is none |
| ScanProperties.PlainTagIgnored | adif.py:110-115 | a tag without `:` that is not `eor` or `eoh` changes neither the records, the staging record, the counter nor the log |
| ScanProperties.FieldTagStores | adif.py:97-114 | `<name:len...>` stores the lower-cased name with the decoded slice of the given length, overwriting an earlier value, or ends the load with `BadLength` when the length is not an integer |
| ScanProperties.FieldDefParts | adif.py:97 | the first part of a field definition is the name and the second the length |
| ScanProperties.FieldValueIsSlice | adif.py:114 | a field's value is the text after the `>` for the given length, truncated at the end of the input |
| ScanProperties.FieldValueRoundTrip | adif.py:114 | a value written with `&lt;` encoding and its encoded length reads back as the original value |
| FixupProperties.CoerceKeysEach | adif.py:43-60 | the first loop keeps the key set and coerces each key according to its name |
| FixupProperties.CoerceKeysSucceeds | adif.py:43-60 | the first loop succeeds when every key's coercion succeeds |
| FixupProperties.FailuresFrame | adif.py:62-70 | changing a field outside the integer list does not change which integer fields fail |
| FixupProperties.ConvertIntsOk | adif.py:62-70 | the integer loop succeeds exactly when every present integer field holds text or an integer |
| FixupProperties.ConvertIntsValues | adif.py:62-70 | the integer loop keeps the key set, leaves other fields alone, and makes each integer field its integer or -1 |
| FixupProperties.ConvertIntsLog | adif.py:62-70 | the integer loop logs exactly the fields whose text is not an integer, in order |
| FixupProperties.ConvertIntsEach | adif.py:62-70 | the three facts above together |
| FixupProperties.FixedSteps | adif.py:35-71 | a successful fix-up is the first loop followed by the integer loop |
| FixupProperties.FixedFails | adif.py:43-60 | a key whose coercion always fails makes the fix-up fail |
| FixupProperties.IntFieldNames | adif.py:39 | the integer fields are distinct, and only `tx_pwr` among them is touched by the first loop |
| FixupProperties.TxPwrCoerced | adif.py:56-60 | a `tx_pwr` still text after the first loop is unchanged and is not `unknown` in any case |
| FixupProperties.Coerced | adif.py:35-71 | a successful fix-up keeps the key set through both loops and coerces each key by its name |
| FixupProperties.FixupKeepsKeys | adif.py:35-71 | the fix-up keeps the key set exactly |
| FixupProperties.PlainCoerced | adif.py:43-60 | the first loop leaves a key with no special name unchanged |
| FixupProperties.DateCoerced | adif.py:44-45 | a `_date` key becomes the date its text parses to |
| FixupProperties.FreqCoerced | adif.py:46-47 | `freq` becomes a frequency when its text is a float literal |
| FixupProperties.TimeCoerced | adif.py:48-55 | a `time_` value of length 3-4 is read as HHMM and of length 5-6 as HHMMSS |
| FixupProperties.TxPwrCoercedText | adif.py:56-60 | `tx_pwr` `unknown`, in any case, becomes -1; any other text is kept |
| FixupProperties.FixupKeepsPlainFields | adif.py:43-70 | a field that is neither specially named nor an integer field keeps its decoded text |
| FixupProperties.FixupIntFields | adif.py:62-70 | `dxcc`, `cqz` and `ituz` become their integer, or -1 when the text is not an integer |
| FixupProperties.FixupTxPwr | adif.py:56-70 | `tx_pwr` becomes -1 when it is `unknown` in any case, else its integer, else -1 |
| FixupProperties.FixupDate | adif.py:44-45 | after a successful fix-up a `_date` field holds the date its text parses to |
| FixupProperties.FixupBadDate | adif.py:44-45 | a `_date` field that does not parse makes the fix-up fail |
| FixupProperties.FixupFreq | adif.py:46-47 | after a successful fix-up `freq` holds the float literal it was given |
| FixupProperties.FixupBadFreq | adif.py:46-47 | a `freq` that is not a float literal makes the fix-up fail |
| FixupProperties.FixupTime | adif.py:48-55 | after a successful fix-up a `time_` field of length 3-6 holds the time its text parses to in the format its length selects |
| FixupProperties.FixupBadTime | adif.py:48-55 | a `time_` field of length 3-6 that does not parse makes the fix-up fail |
| FixupProperties.FailuresAgree | adif.py:62-70 | two records with the same unconvertible integer fields log the same diagnostics |
| FixupProperties.AbsentNotLogged | adif.py:64 | absent integer fields log nothing |
| FixupProperties.FixupLog | adif.py:62-70 | a successful fix-up logs one diagnostic per unconvertible integer field of the original record, with its name, the record number and its text |
| FixupProperties.FixupTextSucceeds | adif.py:35-71 | a record of text fields with no date, time or frequency names always fixes up successfully |
| WrittenRecords.StagedKeys | adif.py:110-114 | the staged record holds exactly the keys it started with and the lower-cased name of every written field |
| WrittenRecords.StagedLast | adif.py:110-114 | a field that no later field overwrites keeps its value in the staged record |
| WrittenRecords.StagedUntouched | adif.py:110-114 | a key no field names keeps its value |
| WrittenRecords.StagedText | adif.py:114 | staging text onto text gives text |
| WrittenRecords.FindAt | adif.py:91 | `find` returns the first occurrence |
| WrittenRecords.SkipToTag | adif.py:91 | text before the next `<` is skipped |
| WrittenRecords.FieldTagFound | adif.py:91-97 | the tag of a written field is the next tag; its name and length sit inside it and its encoded value follows it |
| WrittenRecords.FieldTagStages | adif.py:97-114 | the tag of a writable field stages its value under the lower-cased name |
| WrittenRecords.FieldStep | adif.py:89-115 | a written field followed by a tag stages its value and hands over to that tag |
| WrittenRecords.FieldsStage | adif.py:89-115 | a run of written fields stages them all in order and hands over to the tag after them |
| WrittenRecords.WrittenLaidOut | adif.py:89-115 | written fields followed by a tag sit in the text one after another |
| WrittenRecords.FinalEor | adif.py:99-104 | an `<eor>` at the end of the text emits the fixed-up staging record, raises the counter and ends the load |
| WrittenRecords.HeaderEnd | adif.py:106-109 | an `<eoh>` followed by a tag discards the records and the staging record |
| WrittenRecords.FieldsThenEor | adif.py:89-115 | written fields closed by a final `<eor>` load as the one record they stage |
| WrittenRecords.HeaderDropped | adif.py:106-109 | header fields closed by `<eoh>` are dropped whole: the scan resumes after it with nothing staged |
| WrittenRecords.WrittenThenEor | adif.py:89-115 | the same, stated on the written text |
| WrittenRecords.WrittenHeaderDropped | adif.py:106-109 | written header fields and their `<eoh>` are dropped whole |
| WrittenRecords.RecordAfterHeader | adif.py:89-115 | after that `<eoh>`, the written record loads as the one record it stages |
| WrittenRecords.HeaderThenBody | adif.py:89-115 | a written header, `<eoh>`, then a written record: the load returns that record alone |
| WrittenRecords.LogFromText | adif.py:89-115 | the same with text free of `<` in front |
| WrittenRecords.RecordReadsBack | adif.py:89-115 | any run of writable fields closed by `<eor>` loads as the one fixed-up record they stage, with the counter and log of that fix-up |
| WrittenRecords.HeaderThenRecord | adif.py:89-115 | free text without `<`, written header fields and `<eoh>` in front of a written record change nothing: no header field reaches the output |
| WrittenRecords.PlainFixup | adif.py:43-70 | a record of text under names the fix-up does not touch comes through it unchanged, with nothing logged |
| WrittenRecords.PlainRecord | adif.py:89-115 | fields written under such names read back exactly: one record holding the last value under each lower-cased name, the counter raised by one, nothing logged |
| Examples.SampleDate | adif.py:45 | `20130527` parses as 27 May 2013 |
| Examples.SampleLongTime | adif.py:55 | `083100` parses as 08:31:00 |
| Examples.SampleShortTime | adif.py:54-55 | `0831` parses as 08:31:00 |
| Examples.SampleDxcc | adif.py:66 | `291` is the integer 291 |
| Examples.SamplePower | adif.py:66 | `100` is the integer 100 |
| Examples.UnknownAnyCase | adif.py:58 | `Unknown` lower-cases to `unknown` |
| Examples.SampleZones | adif.py:66 | the sample's `cqz` 3 and `ituz` 6 are the integers 3 and 6 |
| Examples.SampleTestIntegers | adif.py:56-70 | in a record that fixes up, the sample's `dxcc` 291, `cqz` 3, `ituz` 6 and `tx_pwr` 100 become those integers, as the test expects |
| Examples.SampleIntegerFields | adif.py:56-70 | with texts outside the sample, in a record that fixes up: `dxcc` 291 becomes 291, a `cqz` of `notanum` becomes -1, and `tx_pwr` `Unknown` becomes -1 |
| Examples.SampleUnreadableValue | adif.py:65-70 | a lone `cqz` of `notanum` fixes up to -1 without failing |
| Examples.SampleUnreadableLog | adif.py:67-69 | the `cqz` of `notanum` in record 7 is logged once with its name, number and text |
| Examples.SampleEmptyLoad | adif.py:148-152 | the empty log loads as no records |

## Left out

- `readable.read()` (adif.py:77): the input is the text itself, a `string`
  parameter of `Load`.
- Logging (adif.py:7-20, 68-69, 103): the error message becomes a
  `Diagnostic` appended to the reader's `diagnostics`. The debug message
  for each record and the log file and stream are not modelled.
- `float()` (adif.py:47): the model checks only that the text is a float
  literal and keeps it as `Freq(text)`. The number itself is not modelled.
- Numbers.ParseInt: the source is Python 2 code (`import StringIO` at
  adif.py:149). The model's `int()` and `float()` take ASCII text only and
  differ from Python 2 on `str` in two ways, and from Python 3 in one.
  - The model strips the separators 0x1C-0x1F around the text, as Python 3
    does; Python 2 does not, so `int('5\x1c')` raises there while the
    model gives 5.
  - Python 2's `int()` accepts white space between the sign and the
    digits, so `int('- 5')` is -5 there while the model gives `None`.
  - The model rejects `_` between digits, as Python 2 does; Python 3.6 and
    later accept it (`int('1_0')` is 10 there).
  - Unicode digits and spaces are not modelled: the model accepts only
    ASCII digits and ASCII whitespace.
- `str.lower()` is modelled on ASCII letters only; other letters are kept.
- `strptime` is modelled only for `%Y%m%d`, `%H%M` and `%H%M%S`, on ASCII
  digits, without locale.
- A `<` with no later `>` (adif.py:94): the model ends the load with
  `UnclosedTag`. The code does not stop there. `endPos` is -1, so line 97
  slices `raw[pos+1:-1]` and line 115 sets `pos` to -1. The next `find`
  from -1 then looks only at the last character. The chopped slice is
  still handled as a tag, so the code goes on as follows.
  - It can raise on a length that is not an integer: `"<a:yz"` splits to
    `a` and `y`, and `int('y')` raises (adif.py:113).
  - It can emit a record: `"<eorx"` is taken as `eor`, appends the staged
    record and raises the record number.
  - It can stage a value: `"<a:3x"` stages `raw[0:3]` under `a`.
  - After it, a text whose last character is `<`, `"<"` for one, loops
    forever.
- The unreachable `return recs` after the loop (adif.py:116), the
  deprecated `qsos` (adif.py:118-120) and the unit-test classes. The tests
  are used only for the expected values in `Examples`.
- azutil.py is not part of this model: floating-point bearing math, calls
  into an unseen projection object, and a compressed lookup table.
- The class attribute `char_debug` (adif.py:31) is never read and is not
  modelled.
- Adif.ADIFReader.AdifFixup: `adifFixup` changes the caller's dict in place
  and returns it. The model returns the new record, so on failure the
  partly coerced dict the caller would still hold is not modelled.
- Adif.ADIFReader.ConvertIntFields: takes the list of integer fields as a
  parameter. `AdifFixup` passes the fixed list `dxcc`, `cqz`, `ituz`,
  `tx_pwr` of adif.py:39.
- Adif.ADIFReader.Load: the staging record `rec` is never shared with the
  emitted list after the reset at adif.py:104, so values model it without
  loss. No aliasing of the emitted records is captured.
- A whole-log concrete example (the sample QSO of adif.py:126-129 loaded
  end to end) is not stated. The model proves the round trip
  `WrittenRecords.RecordReadsBack` for every run of writable fields and
  `WrittenRecords.HeaderThenRecord` with a header in front, but both lay
  the fields end to end. The sample has spaces and line breaks between
  its fields, so it is not an instance of either. `Examples` states the
  parsed values of the sample's date, time and integer fields one by one.
