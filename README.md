# NMEA 0183 sentence reader — Dafny model

A verified model of the sentence-processing core of `gps_reader.py`. This program reads NMEA 0183 lines from a GPS receiver (an Eggfinder module on a serial port). The model covers:

- **Coordinate conversion** (`parse_gps_coordinates`). `DDMM.MMMM` or `DDDMM.MMMM` plus a hemisphere letter becomes signed decimal degrees, or `None`.
- **Framing and dispatch** (`parse_nmea_sentence`). The line is stripped. It must start with `$` and split on `*` into exactly two parts. The part before `*` is split on `,`. Dispatch is on the exact identifiers `$GPGGA`/`$GNGGA` and `$GPRMC`/`$GNRMC`. The GGA or RMC record is built from fixed field positions with length guards.
- **Time formatting** (`format_gps_time`). `HHMMSS...` becomes `"HH:MM:SS UTC"`; a missing, empty or short string becomes `"N/A"`.
- **The fix-quality label table** of the display: codes 0 to 6, and `"Unknown"` otherwise.
- **The reading loop of `main`**. `latest_gga` and `latest_rmc` are kept in a class `FixStore`. `Update` replaces the slot of the record's family. `Track` runs the loop over a sequence of lines and is proved equal to a fold. The fold is proved to keep, in each slot, the record of the last line of that family.

Modules: `Wrappers` (Option), `Text` (strip, count, split, join), `Numbers` (the numeric-field grammar), `Coordinates`, `Sentences`, `SentenceExamples`, `Display`, `Store`.

Numbers are exact. `float()` is modelled as an optionally signed decimal numeral (digits with at most one `.`, and at least one digit), read as an exact `real`. `int()` is modelled as an optionally signed string of digits.

The model follows the code as written:
- A present, non-empty but malformed fix-quality, satellite, altitude, speed or course field discards the whole record. All entries are built inside one `try` (gps_reader.py:72-84, 89-101). It does not null just that field. Only a bad coordinate is per-field, because the converter catches its own errors.
- Framing needs exactly one `*`, not merely some `*`. The two-way unpacking of `split('*')` raises otherwise (gps_reader.py:63).
- A coordinate whose length equals the degree width already fails, because its minutes part is empty. It does not have to be shorter.
- Any non-empty hemisphere text other than `N`/`S` takes three degree digits, and only `S` and `W` negate.

## Model

| member | source | states |
|---|---|---|
| Text.Strip | gps_reader.py:57 | the stripped line neither starts nor ends with whitespace (Python's `isspace` set) |
| Text.LStrip | gps_reader.py:57 | the result is a suffix of the input; only whitespace was removed, and it does not start with whitespace |
| Text.RStrip | gps_reader.py:57 | the result is a prefix of the input; only whitespace was removed, and it does not end with whitespace |
| Text.StripPadded | gps_reader.py:57 | any whitespace around a trimmed text is exactly what `strip()` removes |
| Text.StripTrimmed | gps_reader.py:57 | a text without surrounding whitespace is returned unchanged |
| Text.StripIdempotent | gps_reader.py:57 | stripping twice is the same as stripping once |
| Text.Count | gps_reader.py:58 | the count is zero exactly when the character does not occur (the `'*' in sentence` test) |
| Text.Split | gps_reader.py:63-64 | `str.split`: one more piece than separators, no piece contains the separator, and joining the pieces gives the input back |
| Text.SplitJoin | gps_reader.py:63-64 | splitting inverts joining for separator-free pieces |
| Text.SplitTwo | gps_reader.py:63 | a text with one `*` splits into the data part and the checksum |
| Numbers.ParseUnsigned | gps_reader.py:29-33 | an accepted unsigned numeral is non-empty and denotes a non-negative value; a plain digit string denotes its digit value |
| Numbers.FractionValue | gps_reader.py:30 | the digits after a decimal point denote a value in [0, 1) |
| Numbers.ParseDecimal | gps_reader.py:29-33 | `float("")` fails; a digit string denotes its digit value |
| Numbers.DecimalParts | gps_reader.py:29-30 | `whole.frac` denotes whole plus fraction digits over a power of ten |
| Numbers.ParseInt | gps_reader.py:78-79 | `int("")` fails; a digit string denotes its digit value |
| Numbers.IntIsDecimal | gps_reader.py:78-80 | whatever `int()` accepts, `float()` accepts with the same value |
| Numbers.NegatedDecimal | gps_reader.py:29-33 | a leading minus negates the numeral and fails exactly when the unsigned numeral fails |
| Numbers.UnsignedGrammar | gps_reader.py:29-33 | without a sign, `float()` succeeds exactly on digits with at most one `.` and at least one digit (`UnsignedNumeral`); `"."`, `"1.2.3"` and `"x"` fail |
| Numbers.DecimalGrammar | gps_reader.py:29-33 | `float()` succeeds exactly on an optional sign followed by an unsigned numeral (`DecimalNumeral`); `"+"` and `"--5"` fail |
| Numbers.IntGrammar | gps_reader.py:78-79 | `int()` succeeds exactly on an optional sign followed by one or more digits (`IntNumeral`); `"1.0"` and `"+"` fail |
| Numbers.NumeralWithPoint | gps_reader.py:29-33 | around its first `.`, a numeral is two digit strings with at least one digit in all |
| Numbers.NumeralWithoutPoint | gps_reader.py:29-33 | without a `.`, a numeral is a non-empty digit string |
| Numbers.PlusDecimal | gps_reader.py:29-33 | a leading `+` leaves the value of `float()` unchanged |
| Numbers.SignedInt | gps_reader.py:78-79 | for `int()`, a leading `+` changes nothing and a leading `-` negates, failing exactly when the unsigned digits fail |
| Numbers.ExampleRejectedShort | gps_reader.py:29-33 | `float()` fails on `"x"`, `"."` and `"+"` |
| Numbers.ExampleRejectedLong | gps_reader.py:29-33 | `float()` fails on `"1.2.3"` and `"--5"` |
| Numbers.ExampleIntRejected | gps_reader.py:78-79 | `int()` fails on `"1.0"`, `"+"` and `"x"` |
| Numbers.NatDigits | gps_reader.py:78-79 | the decimal spelling of n is read back as n by both `int()` and `float()` |
| Coordinates.Convert | gps_reader.py:22-44 | `None` for an empty value or hemisphere, and for a value no longer than the degree width (empty minutes); otherwise it succeeds exactly when both the degree part and the minute part are numerals |
| Coordinates.ConvertComposed | gps_reader.py:28-42 | a degree field of the hemisphere's width that `float()` accepts, followed by a minutes numeral, converts to degrees + minutes/60, negated for S and W; every successful conversion has this shape |
| Coordinates.HemisphereSign | gps_reader.py:38-40 | `conv(s, "S") == -conv(s, "N")` and `conv(s, "W") == -conv(s, "E")`, including failure |
| Coordinates.OtherHemisphereIsEast | gps_reader.py:28-33 | any other non-empty hemisphere text is read like `E` (three degree digits, positive) |
| Coordinates.ExampleLatitude | gps_reader.py:28-42 | `"4807.038"`, `N` gives 48.1173 |
| Coordinates.LatitudeMinutes | gps_reader.py:30 | `"07.038"` reads as 7.038 minutes |
| Coordinates.ExampleLongitude | gps_reader.py:31-36 | `"01131.000"`, `E` gives 11 + 31/60 |
| Coordinates.DigitsOf011 | gps_reader.py:32 | the degree digits `"011"` denote 11 |
| Coordinates.LongitudeMinutes | gps_reader.py:33 | `"31.000"` reads as 31 minutes |
| Coordinates.ExampleNoClamping | gps_reader.py:35-42 | no range check: `"9960"`, `N` gives 100 degrees |
| Coordinates.ExampleSignedDegrees | gps_reader.py:28-42 | the degree field goes through `float()` as well: `"-4807.038"`, `N` gives -4 + 807.038/60 |
| Coordinates.SignedMinutes | gps_reader.py:30 | `"807.038"` reads as 807.038 minutes |
| Coordinates.ExampleFailures | gps_reader.py:22-44 | empty value, `"48"` with `N`, empty hemisphere and non-numeric minutes all give `None` |
| Sentences.TypeTag | gps_reader.py:74 | the record's `type` is `"GPGGA"` exactly for GGA records and `"GPRMC"` exactly for RMC records |
| Sentences.ParseGga | gps_reader.py:72-84 | the record is discarded exactly when fix quality, satellites or altitude is present, non-empty and malformed; each field is read only when the field count exceeds its index; latitude needs more than 3 fields and longitude more than 5; quality and satellites default to 0; altitude is `None` when absent or empty; time and unit are copied verbatim |
| Sentences.ParseRmc | gps_reader.py:89-101 | the record is discarded exactly when speed or course is present, non-empty and malformed; latitude needs more than 4 fields and longitude more than 6; speed and course are `None` when absent or empty; time, status and date are copied verbatim |
| Sentences.Dispatch | gps_reader.py:71-103 | only the four exact identifiers produce a record: GGA identifiers give the GGA parse, tagged `GPGGA`; RMC identifiers give the RMC parse; every other identifier gives `None` |
| Sentences.Frame | gps_reader.py:57-67 | a stripped line is framed exactly when it starts with `$` and contains exactly one `*` (zero or several fail); the fields are comma-free and join back to the text before `*` |
| Sentences.ParseSentence | gps_reader.py:46-103 | a record implies the stripped line starts with `$` and has exactly one `*`, and its family matches the identifier in field 0 |
| Sentences.WhitespaceIgnored | gps_reader.py:57 | surrounding whitespace does not change the result |
| Sentences.ChecksumIgnored | gps_reader.py:61-64 | the checksum after `*` is never compared: any two checksums give the same result |
| Sentences.ChecksumIgnoredWithLineEnd | gps_reader.py:57-64 | with a line ending such as `"\r\n"` after the checksum, the checksum still makes no difference |
| Sentences.FrameOfChecksummed | gps_reader.py:57-64 | a `$` sentence followed by `*` and a checksum frames to the comma-split of its data part |
| Sentences.FramedFields | gps_reader.py:57-103 | fields free of `,` and `*`, joined with `,` and followed by `*` and a checksum, are dispatched exactly as given |
| Sentences.GgaCoordinateFailureIsLocal | gps_reader.py:76-77 | any text in a GGA coordinate field keeps or discards the record as before and changes at most the coordinate read from that field |
| Sentences.RmcCoordinateFailureIsLocal | gps_reader.py:94-95 | the same for the RMC coordinate fields |
| SentenceExamples.ExampleGga | gps_reader.py:71-84 | the standard GGA example gives time `123519`, 48.1173, 11 + 31/60, quality 1, 8 satellites, 545.4 `M` |
| SentenceExamples.GgaExampleRecord | gps_reader.py:72-84 | the GGA example's fields build the record with time `123519`, 48.1173, 11 + 31/60, quality 1, 8 satellites, 545.4 `M` |
| SentenceExamples.GgaExampleCoordinates | gps_reader.py:76-77 | the example's two coordinates convert to 48.1173 and 11 + 31/60 |
| SentenceExamples.GgaExampleNumbers | gps_reader.py:78-80 | the example's quality, satellites and altitude read as 1, 8 and 545.4 |
| SentenceExamples.ExampleAltitude | gps_reader.py:80 | `"545.4"` reads as 545.4 |
| SentenceExamples.ExampleFixQuality | gps_reader.py:78 | `"1"` reads as fix quality 1 |
| SentenceExamples.ExampleSatellites | gps_reader.py:79 | `"08"` reads as 8 |
| SentenceExamples.ExampleCourse | gps_reader.py:97 | `"084.4"` reads as 84.4 |
| SentenceExamples.RmcExampleValues | gps_reader.py:94-97 | the RMC example's coordinates and course read as 48.1173, -(11 + 31/60) and 84.4 |
| SentenceExamples.RmcExampleRecord | gps_reader.py:89-101 | the RMC example's fields build the record with an empty speed read as `None` and course 84.4 |
| SentenceExamples.ExampleRmcWithoutSpeed | gps_reader.py:88-101 | a `$GNRMC` sentence with an empty speed gives speed `None` and keeps the course and the other fields, with a negative west longitude and the tag `GPRMC` |
| Display.FormatTime | gps_reader.py:115-124 | `"N/A"` exactly for a missing input or one shorter than 6 characters; otherwise 12 characters with `:` at positions 2 and 5, ending in `" UTC"` |
| Display.FormatTimeKeepsDigits | gps_reader.py:119-122 | the first six characters can be read back from the output |
| Display.FormatTimeDeterminedByPrefix | gps_reader.py:115-122 | two times format alike exactly when their first six characters agree (characters beyond 6 are ignored) |
| Display.ExampleTimes | gps_reader.py:115-122 | `"123519"` gives `"12:35:19 UTC"`, and a fraction is ignored; `"12"`, `""` and `None` give `"N/A"` |
| Display.FixQualityLabel | gps_reader.py:165-174 | `"Unknown"` exactly for codes outside 0 to 6 |
| Display.QualityOfLabel | gps_reader.py:165-173 | reading the table backwards gives a code in 0 to 6 whose label is the one given |
| Display.FixQualityLabelRoundTrip | gps_reader.py:165-173 | the table is one-to-one on 0 to 6 |
| Store.Apply | gps_reader.py:258-270 | no record leaves both slots unchanged; a GGA record replaces only the GGA slot, wholesale; an RMC record replaces only the RMC slot |
| Store.Parses | gps_reader.py:254-258 | one parse result per line read, in order: none for an empty read, otherwise the line's parse |
| Store.Step | gps_reader.py:256-270 | an empty read changes nothing; the GGA slot becomes the line's GGA record when it parses to one and is kept otherwise, and likewise the RMC slot |
| Store.Fold | gps_reader.py:250-270 | the loop over the lines never empties a filled slot |
| Store.LatestGga | gps_reader.py:258-264 | the last GGA record among the parse results: `None` exactly when there is none, otherwise the record of a GGA result after which no GGA result follows |
| Store.LatestRmc | gps_reader.py:258-270 | the last RMC record among the parse results: `None` exactly when there is none, otherwise the record of an RMC result after which no RMC result follows |
| Store.ParsesSnoc | gps_reader.py:254-258 | one more line read adds exactly its own parse result at the end |
| Store.LatestSnoc | gps_reader.py:258-270 | a further result of one family becomes that family's latest record and leaves the other family's unchanged |
| Store.FoldSnoc | gps_reader.py:250-270 | reading one more line is one more step of the loop |
| Store.FoldKeepsLatest | gps_reader.py:247-270 | after any stream each slot holds the record of the last line of its family, or its starting value when there is none |
| Store.FoldWithoutGga | gps_reader.py:258-270 | a stream with no GGA record leaves the GGA slot unchanged |
| Store.FixStore.constructor | gps_reader.py:247-248 | both slots start empty |
| Store.FixStore.Update | gps_reader.py:260-270 | the new slot pair is `Apply` of the old pair and the parse result |
| Store.FixStore.ReadLine | gps_reader.py:254-270 | an empty read changes nothing; otherwise the line is parsed and applied |
| Store.Track | gps_reader.py:247-270 | the loop from empty slots ends with the fold of the lines: each slot holds the latest record of its family |

## Left out

- Serial port open, read, timeout and close, and ASCII decoding with dropped bytes (gps_reader.py:233-243, 254, 289, 295). This is I/O: the model takes the decoded lines as a sequence.
- `display_gps_data`'s screen clearing, printing, number formatting and `datetime.now()` (gps_reader.py:126-227). The fix-quality table is the only part of it that is modelled.
- The knots to km/h and mph conversions (gps_reader.py:211-212). They are display-only floating-point products.
- Exception handlers, `UnicodeDecodeError` skipping, `KeyboardInterrupt` and `sys.exit` (gps_reader.py:272-296). These are process lifecycle.
- Store.Track: the source's `while True` loop never ends; the model runs it over a finite sequence of lines, which is any prefix of the stream.
- Floating point: values are exact reals, so IEEE rounding of `float()` and of `minutes / 60.0` is not modelled.
- Numbers.ParseDecimal: Python's `float()` also accepts surrounding whitespace, `_` between digits, exponents (`1e3`), `inf`, `nan` and non-ASCII digits; the model rejects these, so for such fields it returns `None` (or discards the record) where Python produces a value.
- Numbers.ParseInt: Python's `int()` also accepts surrounding whitespace, `_` between digits and non-ASCII digits; the model rejects these.
- Numbers.ParseInt: Python's `int()` raises `ValueError` on a decimal string of more than 4300 digits (the `int_max_str_digits` limit); the model accepts any length, so for such a fix-quality or satellite field the source discards the GGA record and the model keeps it.
- Checksum verification: the source splits off the checksum and never checks it, and the model keeps it unchecked (Sentences.ChecksumIgnored).
