# spaceland readers in Dafny

This project models the two binary readers of the spaceland package and
proves properties of them:

- **The dBase III attribute-table reader** (`DbaseFile`, `spaceland/dbf.py`).
  It covers:
  - the 32-byte header: record count u32 LE at bytes 4-7, header length and
    record length u16 LE at bytes 8-9 and 10-11;
  - the 32-byte field descriptors and the type-tag dispatch (`C`, `N`/`F`,
    `D`, `L`; anything else is a hard error);
  - the five null-tolerant value parsers (str, int, float, date, bool);
  - fixed-stride record decoding (drop the deletion byte, cut the rest by
    field lengths);
  - `records(start)`, `record(index)`, `__getitem__` and `__len__`.
- **The ESRI shapefile geometry reader** (`Shapefile`, `src/spaceland/shp.py`).
  It covers:
  - the 100-byte file header;
  - the 14 shape-type codes and the parser table, which separates
    known-but-unsupported codes from invalid ones;
  - the null and point record parsers;
  - the `records()` loop over variable-length records. Each record has a
    12-byte header: a big-endian content length and a little-endian
    per-record shape type.

## Layout

Files, from the bottom up:

- `wrappers.dfy`: `Option`, `Result`, and `Scan`. A `Scan` holds the items a
  generator yields and the exception that ends it early, if any.
- `bytes.dfy`: bytes, little- and big-endian unsigned integers, and signed
  32-bit integers with their round trips. It also defines `ReadAt`, what
  the `read(n)` of a binary file returns at a position: nothing past the
  end, the rest of the data for `n == -1`, otherwise at most `n` bytes. A
  count below -1 raises `ValueError`; `ReadAt` is not defined for it.
- `stream.dfy`: `Stream`, an owned binary file. Its bytes are fixed; `pos` is
  the cursor. `Seek` refuses an offset that is negative or does not fit a
  64-bit file offset (2^63 or more), `Read` refuses a count below -1, and an
  accepted `Read` advances `pos` by what it returned.
- `dbf_values.dfy`: the value parsers, with encoders and round-trip lemmas.
- `dbf_format.dfy`: descriptors, type dispatch, header and record decoding,
  plus specification functions for `records()`, `record()` and
  `__getitem__`.
- `dbf_file.dfy`: the class `DbaseFile`. Its methods work on the stream and
  are proved equal to those specification functions.
- `shp_format.dfy`: header, shape types, parser lookup and record framing,
  with encoders and round-trip lemmas.
- `shp_file.dfy`: the class `Shapefile`, proved against `shp_format.dfy`.

Modelling choices:

- A generator is modelled as the list it yields plus the error that stops
  it. For example, `list(records(start))` is `RecordsFrom` and `record(i)`
  is `RecordOf`.
- Exceptions are the constructors of `DbfError` and `ShpError`:
  - `struct.error` is `StructError`;
  - `TypeError` is `UnknownFieldType` or `NonIntegerKey`;
  - `IndexError` is `IndexOutOfRange`;
  - `StopIteration` is `StopIteration`;
  - a refused seek is `BadSeek`: a negative offset raises `OSError`
    (EINVAL from the operating system's `lseek`), and an offset of 2^63 or
    more, which does not fit 64 bits, raises `ValueError`;
  - `NotImplementedError` is `NotImplemented`;
  - `ValueError` is `InvalidShapeType`, or `ReadLength` when a record's
    content length asks `read` for a count below -1.
- Record offsets are unbounded integers, as in Python, so a large enough
  `start` or `index` reaches the 64-bit seek limit: see
  `OverWideSeekRefused`. "Well-formed" data is also shorter than that limit,
  as every file is.
- A value that fails to parse is `None` inside the record. The one
  exception the value parsers can raise, an `OverflowError` from `date()`,
  is listed under "Left out".

Where the code and a plain reading of the format differ, the model follows
the code:

- `records(start)` always makes `num_records` reads, not
  `num_records - start` (spaceland/dbf.py:250). On data that ends after the
  last record, a start past 0 yields the remaining records and then ends in
  `struct.error`: see `RecordsFromStartOverruns`.
- `record(index)` has no bounds check; only `__getitem__` has one. A
  negative index is wrapped once, so `record(-n-1)` reads the slot before
  record 0: see `RecordBelowRangeReadsHeader`.
- `parse_bool` is a bytes substring test, not a membership test. The empty
  value and `"Yy"` are True, and `"YN"` is None: see `BoolSubstringQuirk`.
- A file of null records yields its records only when the file's own shape
  type is 0 or 1. For any other type the parser lookup fails first: see
  `UnsupportedTypeReadsNothing`.
- The point parser uses `unpack_from`, so it needs at least 16 bytes, not
  exactly 16. Longer content is accepted and its first 16 bytes are used.
- The comment at src/spaceland/shp.py:172-177 says the content length
  counts the record-number and length fields. In the format it counts the
  record content, which starts with the 4-byte shape type. Either way the
  code reads `2 * (content_length - 2)` bytes after the 12-byte header,
  which is the rest of a well-formed record. A content length below 2
  makes that count -2 or less, which `read` refuses with `ValueError`:
  see `ShortContentLengthFails`. The encoders here write content
  length 10 for a point and 2 for a null record.

## Model

| member | source | states |
|---|---|---|
| Bytes.LittleEndianOfToLittleEndian | spaceland/dbf.py:154-155 | an unsigned little-endian field of any width (struct `I`, `H`, `B`) reads back as the number written into it |
| Bytes.ToLittleEndianOfLittleEndian | spaceland/dbf.py:154-155 | every byte string is the little-endian encoding of the number it decodes to |
| Bytes.BigEndianOfToBigEndian | src/spaceland/shp.py:159 | an unsigned big-endian field reads back as the number written into it |
| Bytes.Signed32 | src/spaceland/shp.py:109 | the two's-complement reading of a 32-bit word lies in [-2^31, 2^31) and agrees with the word modulo 2^32 |
| Bytes.I32LERoundTrip | src/spaceland/shp.py:109 | a little-endian `i` field reads back as every signed 32-bit value written into it |
| Bytes.I32BERoundTrip | src/spaceland/shp.py:159 | a big-endian `i` field reads back as every signed 32-bit value written into it |
| Bytes.ReadAt | spaceland/dbf.py:249-252 | `read(n)` at a position, for a count of -1 or more: empty at or past the end; otherwise the bytes from that position, `n` of them, or all that remain when `n` is -1 or more than remain |
| Streams.Stream.Seek | spaceland/dbf.py:244 | seeking succeeds exactly when the offset is non-negative and below 2^63, and then moves the cursor there; a refused seek leaves it |
| Streams.Stream.Read | spaceland/dbf.py:249-252 | a read succeeds exactly when the count is -1 or more; it then returns `ReadAt` at the cursor and advances the cursor by the number of bytes returned; a refused read returns nothing and leaves the cursor |
| DbfValues.Strip | spaceland/dbf.py:45 | the result is the run right after the leading whitespace, every byte after it is whitespace, it neither starts nor ends with whitespace, and it is empty exactly when the input is all whitespace |
| DbfValues.StripSplits | spaceland/dbf.py:45 | every value is a run of whitespace, its stripped form, and another run of whitespace, in that order |
| DbfValues.StripPadded | spaceland/dbf.py:45 | stripping removes exactly the whitespace on both sides, whatever whitespace bytes they hold, of a value that is empty or neither starts nor ends with whitespace |
| DbfValues.ParseStr | spaceland/dbf.py:33-47 | a text value exists exactly when every byte is ASCII; it is then the ASCII text between a leading and a trailing run of `str.strip` whitespace, all ASCII, and has no such whitespace at either end |
| DbfValues.StripKeepsAscii | spaceland/dbf.py:45 | stripping ASCII text leaves ASCII text |
| DbfValues.StrRoundTrip | spaceland/dbf.py:33-47 | ASCII text between any two runs of `str.strip` whitespace reads back as the text alone; whitespace alone reads back as the empty text |
| DbfValues.DigitsValue | spaceland/dbf.py:80 | a string of k decimal digits denotes a number below 10^k |
| DbfValues.Digits | spaceland/dbf.py:80 | every natural number has a non-empty digit string without leading zeros that denotes it |
| DbfValues.ParseInt | spaceland/dbf.py:68-82 | an all-whitespace (or empty) value is None |
| DbfValues.SignedDigitsAccepts | spaceland/dbf.py:79-82 | a stripped value has an integer value exactly when it holds at least one digit and nothing but digits, apart from one sign in front |
| DbfValues.ParseIntAccepts | spaceland/dbf.py:68-82 | `int(value)` gives a number exactly when the stripped value is an optionally signed run of one or more digits, and None otherwise |
| DbfValues.SignedDigitsOfFormat | spaceland/dbf.py:80 | the written form of every integer, with a minus sign when negative, is read back as that integer |
| DbfValues.IntRoundTrip | spaceland/dbf.py:79-82 | every integer, padded on either side with any whitespace, parses back to itself |
| DbfValues.ParseIntPadDigits | spaceland/dbf.py:79-82 | a zero-padded digit string of any width parses to the number it denotes |
| DbfValues.Find | spaceland/dbf.py:63 | the index of the first byte a predicate accepts, or the length when there is none |
| DbfValues.ParseFloat | spaceland/dbf.py:51-65 | an all-whitespace (or empty) value is None |
| DbfValues.ParseFloatRejects | spaceland/dbf.py:51-65 | the modelled `float(value)` (decimal notation only) is None when the stripped value holds a byte other than a digit, a sign, a point, `e` or `E`, and when the value holds no digit |
| DbfValues.SignedFloatBytes | spaceland/dbf.py:62-65 | a signed float literal is made of digits, signs, points and exponent marks, and holds a digit |
| DbfValues.UnsignedFloatBytes | spaceland/dbf.py:62-65 | an unsigned float literal is made of digits, signs, points and exponent marks, and holds a digit |
| DbfValues.MantissaBytes | spaceland/dbf.py:62-65 | a mantissa is made of digits and points, and holds a digit |
| DbfValues.ExponentByte | spaceland/dbf.py:62-65 | after the exponent mark of a float literal there are only signs and digits |
| DbfValues.UnsignedFloatWithoutExponent | spaceland/dbf.py:63 | a literal with no `e`/`E` is read as a plain mantissa |
| DbfValues.MantissaOfDigits | spaceland/dbf.py:63 | a digit string is read as the integer it denotes |
| DbfValues.FloatAgreesWithInt | spaceland/dbf.py:62-82 | every value `int()` accepts is accepted by `float()` with the same numeric value |
| DbfValues.SignedDigitsAsFloat | spaceland/dbf.py:62-82 | an optionally signed digit string is read by `float()` as the integer `int()` reads |
| DbfValues.ParseSignedFloat | spaceland/dbf.py:63 | only a non-empty stripped value can be a float |
| DbfValues.ParseFloatUnsigned | spaceland/dbf.py:63 | a literal that starts with a digit and does not end in whitespace is read unsigned, with nothing stripped |
| DbfValues.FindFirstDot | spaceland/dbf.py:63 | in `digits.digits`, the decimal point found is the one after the whole part |
| DbfValues.MantissaWithFraction | spaceland/dbf.py:63 | `digits.digits` is a mantissa whose value is the whole part plus the fraction over 10^(fraction length) |
| DbfValues.DecimalLiteral | spaceland/dbf.py:62-65 | `w.f` parses to exactly the decimal number it writes |
| DbfValues.DecimalLiteralEnds | spaceland/dbf.py:62-65 | `w.f` starts with a digit and does not end in whitespace, so nothing is stripped |
| DbfValues.DecimalLiteralHasNoExponent | spaceland/dbf.py:63 | `w.f` holds no `e` or `E` |
| DbfValues.DaysInMonth | spaceland/dbf.py:97 | every Gregorian month has 28 to 31 days |
| DbfValues.ParseDate | spaceland/dbf.py:85-99 | every date produced is a valid Gregorian date in years 1-9999; a value shorter than 7 bytes is None |
| DbfValues.FormatDate | spaceland/dbf.py:97 | every valid date is written as exactly 8 bytes |
| DbfValues.DateRoundTrip | spaceland/dbf.py:96-99 | every valid date written as YYYYMMDD parses back to itself (e.g. 19950101 is 1995-01-01) |
| DbfValues.BadMonthIsNull | spaceland/dbf.py:96-99 | a YYYYMMDD value whose month is 13-99 is None whatever the year and day (e.g. 19951301) |
| DbfValues.Contains | spaceland/dbf.py:114 | a needle is only found in a haystack at least as long |
| DbfValues.ContainsIsSubstring | spaceland/dbf.py:114-116 | `needle in hay` holds exactly when the needle occurs at some index of the haystack |
| DbfValues.OccursAtStart | spaceland/dbf.py:114 | an occurrence at index 0 is exactly a prefix |
| DbfValues.OccursInTail | spaceland/dbf.py:114 | an occurrence past index 0 is exactly an occurrence in the tail, one index earlier |
| DbfValues.ContainsSingle | spaceland/dbf.py:114-116 | for a one-byte value the substring test is membership |
| DbfValues.MissingByteNotContained | spaceland/dbf.py:114-116 | a value containing a byte the haystack lacks is not found in it |
| DbfValues.ParseBool | spaceland/dbf.py:102-119 | a value longer than 4 bytes is None |
| DbfValues.BoolSingleByte | spaceland/dbf.py:102-119 | one byte in `YyTt` is True, in `NnFf` False, any other None |
| DbfValues.BoolSubstringQuirk | spaceland/dbf.py:114-116 | the empty value and `Yy` are True because they occur in `YyTt`, while `YN` is None |
| DbfValues.AsciiText | spaceland/dbf.py:45 | ASCII decoding keeps the length and maps each byte to the character with that code |
| DbfFormat.FieldTypeOf | spaceland/dbf.py:169-193 | `C` is str; `N` or `F` is float when decimals > 0 and int otherwise; `D` is date; `L` is bool; each iff, and every other tag is an unknown-type error |
| DbfFormat.ParseValue | spaceland/dbf.py:169-191 | a parsed value has its field's type; a str field has a value exactly when the bytes are ASCII; an all-blank int, float or date field is None |
| DbfFormat.DescriptorCount | spaceland/dbf.py:163 | the count of `range(0, header_length - 33, 32)`: the least n with 32n at least header_length - 33 |
| DbfFormat.DescriptorCountOfLayout | spaceland/dbf.py:159-163 | a header of 32 bytes, n descriptors and the terminator byte gives exactly n descriptors; header length 193 gives 5 |
| DbfFormat.DecodeDescriptor | spaceland/dbf.py:167-193 | a descriptor that is not 32 bytes is a struct error; otherwise it decodes exactly when its tag byte is a known type |
| DbfFormat.DescriptorRoundTrip | spaceland/dbf.py:167-194 | a descriptor reads back its NUL-padded name, tag, length byte 16 and decimals byte 17, whatever the other bytes hold |
| DbfFormat.DescriptorLayout | spaceland/dbf.py:167-194 | a written descriptor holds the NUL-padded name in bytes 0-10, the tag in byte 11, the length in byte 16 and the decimals in byte 17 |
| DbfFormat.DescriptorAtPosition | spaceland/dbf.py:163-167 | descriptor k is the 32-byte read at offset 32 + 32k |
| DbfFormat.ParseFields | spaceland/dbf.py:163-195 | a successful parse of n descriptors has exactly n fields |
| DbfFormat.ParseFieldsAt | spaceland/dbf.py:163-195 | field k of a successful parse is descriptor k, read from its 32-byte slot after the header: file order is kept |
| DbfFormat.ParseFieldsFailure | spaceland/dbf.py:163-195 | a failed parse raises the error of one of the descriptors it read |
| DbfFormat.ParseFieldsFailurePersists | spaceland/dbf.py:192-193 | once a descriptor fails, reading further descriptors changes nothing: the first error is raised |
| DbfFormat.ParseFieldsExtend | spaceland/dbf.py:163-195 | one more decodable descriptor appends its field to the fields read so far |
| DbfFormat.ParseFieldsStopsAtFirstError | spaceland/dbf.py:192-193 | construction fails with the error of the first descriptor that does not decode |
| DbfFormat.ParseFieldsEnd | spaceland/dbf.py:163-195 | the descriptor loop ends after the last descriptor on success, and never past it |
| DbfFormat.ParseFieldsEndAtError | spaceland/dbf.py:163-195 | a failing descriptor leaves the cursor right after its own read, however many descriptors were asked for |
| DbfFormat.DescriptorReadEnd | spaceland/dbf.py:163-167 | the read of descriptor k ends no later than its 32-byte slot, and exactly at the slot's end when the descriptor decodes |
| DbfFormat.ParseFieldsStaysFailed | spaceland/dbf.py:163-195 | a descriptor loop that has failed still fails when asked for more descriptors |
| DbfFormat.ParseFieldsEndFrom | spaceland/dbf.py:163-195 | once the descriptor loop has failed, asking it for more descriptors does not move the cursor |
| DbfFormat.ParseTable | spaceland/dbf.py:150-203 | data shorter than the header is a struct error; the header numbers fit u32/u16; there are as many fields as the descriptor count |
| DbfFormat.ParseTableOf | spaceland/dbf.py:150-203 | a full 32-byte header and decodable descriptors give the table of record count (bytes 4-7), header length (8-9), record length (10-11) and those fields |
| DbfFormat.ParseTableEnd | spaceland/dbf.py:150-195 | construction leaves the cursor at the end of data shorter than the header, and after the last descriptor when it succeeds |
| DbfFormat.ParseTableFieldAt | spaceland/dbf.py:150-203 | field k of an accepted table is the descriptor decoded from slot k |
| DbfFormat.EncodeHeader | spaceland/dbf.py:154-155 | a header written from the three numbers is 32 bytes |
| DbfFormat.HeaderRoundTrip | spaceland/dbf.py:154-155 | the record count, header length and record length read back from bytes 4-7, 8-9 and 10-11, whatever the other 24 bytes hold |
| DbfFormat.ParsedTagsAreKnown | spaceland/dbf.py:169-193 | a table the constructor accepts has only known tags at byte 11 of every descriptor |
| DbfFormat.Offset | spaceland/dbf.py:247-248 | field i starts after the fields before it and ends within the record; the last offset is the sum of the lengths |
| DbfFormat.SliceAt | spaceland/dbf.py:247-252 | slice i of a record body is exactly the bytes of field i at its offset |
| DbfFormat.FieldBytes | spaceland/dbf.py:247-252 | the bytes of field i lie within the record, right after the deletion flag and the fields before it |
| DbfFormat.DecodeRecord | spaceland/dbf.py:247-252 | unpacking succeeds exactly when the read is 1 + the sum of the field lengths; otherwise struct error; a record has one entry per field |
| DbfFormat.RecordValueAt | spaceland/dbf.py:251-252 | entry i of a decoded record is field i's parser applied to field i's bytes after the deletion flag |
| DbfFormat.ScanRecords | spaceland/dbf.py:249-252 | a scan of `count` reads yields at most `count` records, all of them exactly when it ends cleanly, and otherwise stops with a struct error |
| DbfFormat.ScanRecordsStep | spaceland/dbf.py:249-252 | one turn of the loop either stops on the decoding error of the read at the cursor or yields its record and goes on from where the read ended |
| DbfFormat.ScanRecordsDecoded | spaceland/dbf.py:249-252 | a turn whose read decodes yields that record before the records from where the read ended |
| DbfFormat.ScanEnd | spaceland/dbf.py:249-252 | the loop leaves the cursor at or after where it started, and within the data when it started within it |
| DbfFormat.ScanEndStop | spaceland/dbf.py:249-252 | a turn whose record does not decode leaves the cursor right after its read |
| DbfFormat.ScanEndAdvance | spaceland/dbf.py:249-252 | a turn whose record decodes does not change where the loop will leave the cursor |
| DbfFormat.ScanEndComplete | spaceland/dbf.py:249-252 | over full slots the loop leaves the cursor right after its last slot |
| DbfFormat.ScanAdvance | spaceland/dbf.py:249-252 | the loop invariant (records so far, followed by the rest of the run, is the whole run) survives a successful turn |
| DbfFormat.RecordsFrom | spaceland/dbf.py:224-252 | `records(start)` yields at most num_records records |
| DbfFormat.RecordsEnd | spaceland/dbf.py:244-252 | a refused seek (negative or 2^63 and up) leaves the cursor where it stood; otherwise the cursor ends at or after the start offset |
| DbfFormat.IterationEnd | spaceland/dbf.py:244-252 | a full iteration of well-formed data leaves the cursor right after the last record the header announces |
| DbfFormat.GetItem | spaceland/dbf.py:208-213 | a non-int key is a type error; an int key outside [-n, n) is an index error; any other key is `record(key)` |
| DbfFormat.RecordEnd | spaceland/dbf.py:254-267 | `record(index)` leaves the cursor where it stood when the seek is refused (negative or 2^63 and up), at the offset when there are no records, and otherwise right after its one read |
| DbfFormat.GetItemEnd | spaceland/dbf.py:208-213 | a refused key leaves the cursor where it stood; any other key leaves it where `record(key)` does |
| DbfFormat.GetItemEndsAfterRecord | spaceland/dbf.py:208-213 | indexing well-formed data with an index in range, counted from either end, leaves the cursor right after the record returned |
| DbfFormat.RecordOfReadsOne | spaceland/dbf.py:254-267 | `record(index)` wraps a negative index once; an offset that is negative or 2^63 and up is a seek error; otherwise it gives StopIteration when there are no records and else decodes the one record-length read at that slot |
| DbfFormat.OverWideSeekRefused | spaceland/dbf.py:244 | a start or index whose offset is 2^63 or more is refused at the seek, by both `records(start)` and `record(index)`, before any read and with the cursor left where it stood, even with no records |
| DbfFormat.ShortReadStops | spaceland/dbf.py:249-252 | after a read shorter than a record, the scan yields at most that record |
| DbfFormat.ScanItemAt | spaceland/dbf.py:244-252 | record k of a scan is the decoding of the read at start + k * record_length |
| DbfFormat.ScanItemsShift | spaceland/dbf.py:249-252 | past the first record, the records of a scan are those of the scan from the next slot |
| DbfFormat.NextSlot | spaceland/dbf.py:244 | slot k from a position is slot k - 1 from one record further on |
| DbfFormat.ScanComplete | spaceland/dbf.py:250-252 | when all `count` slots lie within the data and the record length matches the fields, the scan ends cleanly |
| DbfFormat.IterationLength | spaceland/dbf.py:205-216 | on well-formed data, iteration yields exactly `len()` records and ends cleanly |
| DbfFormat.IterationMatchesIndexing | spaceland/dbf.py:205-216 | on well-formed data, `file[k]` and `file[k - len()]` are both record k of the iteration |
| DbfFormat.RecordsFromStartOverruns | spaceland/dbf.py:244-252 | from start s > 0 on data that ends after the last record, `records(s)` yields n - s records and then a struct error |
| DbfFormat.SlotSeekable | spaceland/dbf.py:244 | on well-formed data the offset of every record slot up to the end of the last record is a seek Python accepts |
| DbfFormat.OverrunSlots | spaceland/dbf.py:244-252 | from record s, data that ends within one record after the last holds exactly n - s whole records |
| DbfFormat.ScanOverrun | spaceland/dbf.py:249-252 | a scan asked for more reads than the data holds yields the full records and then a struct error |
| DbfFormat.RecordBelowRangeReadsHeader | spaceland/dbf.py:254-267 | `record(-n-1)` decodes the slot before record 0, while `file[-n-1]` is an index error |
| DbfFile.DbaseFile.Open | spaceland/dbf.py:141-203 | construction fails with ParseTable's error, or succeeds with ParseTable's table, so that the object is valid; either way the cursor ends at `ParseTableEnd`, after the last descriptor on success |
| DbfFile.DbaseFile.ReadFields | spaceland/dbf.py:163-195 | the descriptor loop returns exactly `ParseFields` of the data and leaves the cursor at `ParseFieldsEnd`: after the last descriptor on success, after the failing read otherwise |
| DbfFile.DbaseFile.Len | spaceland/dbf.py:205-206 | on well-formed data, `len()` is the number of records iteration yields |
| DbfFile.DbaseFile.NextRecord | spaceland/dbf.py:249-252 | one loop step decodes the record-length read at the cursor and advances the cursor past it |
| DbfFile.DbaseFile.Records | spaceland/dbf.py:224-252 | the generator's output is exactly `RecordsFrom` on the stream's data, and it leaves the cursor where `RecordsEnd` says |
| DbfFile.DbaseFile.ScanFrom | spaceland/dbf.py:249-252 | the loop from a cursor position returns exactly `ScanRecords` from that position for num_records reads, and leaves the cursor at `ScanEnd` |
| DbfFile.DbaseFile.Iterate | spaceland/dbf.py:215-216 | iteration is `records()` from record 0, in output and in where it leaves the cursor |
| DbfFile.DbaseFile.Record | spaceland/dbf.py:254-267 | the result is exactly `RecordOf` on the stream's data, and the cursor ends where `RecordEnd` says |
| DbfFile.DbaseFile.GetItem | spaceland/dbf.py:208-213 | the result is exactly `GetItem` on the stream's data, and the cursor ends where `GetItemEnd` says: unmoved for a refused key |
| ShpFormat.WordAt | src/spaceland/shp.py:109 | each header double is a 64-bit word |
| ShpFormat.ParseMeta | src/spaceland/shp.py:98-110 | the header unpacks exactly when the data has at least 100 bytes, otherwise struct error; the shape type is the signed LE i32 at bytes 32-35 |
| ShpFormat.I32LEBytes | src/spaceland/shp.py:109 | the 4 bytes written for a signed value read back as that value |
| ShpFormat.I32BEBytes | src/spaceland/shp.py:159 | the 4 bytes written for a signed value read back big-endian as that value |
| ShpFormat.MetaRoundTrip | src/spaceland/shp.py:14-16 | a written header reads back as the same shape type and eight bounds (x_min, y_min, x_max, y_max, z_min, z_max, m_min, m_max), whatever its first 32 bytes and what follows |
| ShpFormat.GetParseFunction | src/spaceland/shp.py:72-139 | code 0 gives the null parser and 1 the point parser; each of the other 12 listed codes is not-implemented; every code outside the 14 is invalid; each iff |
| ShpFormat.ParsePointRecord | src/spaceland/shp.py:38-53 | point content parses exactly when it has at least 16 bytes, and otherwise is a struct error |
| ShpFormat.PointRoundTrip | src/spaceland/shp.py:53 | x then y written as 8-byte LE words read back as the point (x, y), whatever follows them |
| ShpFormat.ApplyParser | src/spaceland/shp.py:19-53 | the null parser returns the null shape for any content; the point parser is `ParsePointRecord` |
| ShpFormat.ShpStep | src/spaceland/shp.py:161-179 | a step ends the loop exactly at the end of the data; a yielded record moves on by at least its 12-byte header, to where the stream was left, within the data; a failing step is a struct error or a refused read count; under the null parser every record is null |
| ShpFormat.StepEnd | src/spaceland/shp.py:162-178 | one pass leaves the cursor at or after where it started, within the data when it started within it, and unmoved when it started at or past the end |
| ShpFormat.ShpScan | src/spaceland/shp.py:161-179 | each yielded record uses at least 12 bytes; a scan from the end yields nothing; the only early stops are a struct error and a refused read count; a null-type file yields only null shapes |
| ShpFormat.ShpScanEnd | src/spaceland/shp.py:161-179 | the loop leaves the cursor at or after where it started; after a clean stop the cursor is at the end of the data, or where it started if that was past the end |
| ShpFormat.ShpRecords | src/spaceland/shp.py:141-179 | the parser lookup fails before any record is read; otherwise the records are scanned from byte 100 with that parser |
| ShpFormat.ShpRecordsEnd | src/spaceland/shp.py:156-179 | `list(records())` leaves the cursor at byte 100 or later, and after a clean stop at the end of the data (or at 100 for data shorter than that) |
| ShpFormat.RecordHeader | src/spaceland/shp.py:159-166 | a written record header reads back its content length (BE, bytes 4-7) and per-record tag (LE, bytes 8-11) |
| ShpFormat.TaggedPointStep | src/spaceland/shp.py:165-179 | a record with any non-zero tag is parsed by the file's parser, here as the point it holds, and the next record starts 28 bytes on |
| ShpFormat.NullFileSkipsContent | src/spaceland/shp.py:167-179 | in a null-type file a point record yields the null shape and its content is skipped |
| ShpFormat.NullRecordStep | src/spaceland/shp.py:166-170 | a record tagged 0 yields the null shape after its 12-byte header alone, under either parser |
| ShpFormat.RecordStep | src/spaceland/shp.py:161-179 | a well-formed record reads back as its shape and ends where it ends, when the file's parser fits it |
| ShpFormat.ScanOfSteps | src/spaceland/shp.py:161-179 | records laid end to end to the end of the data, each yielding its shape, are yielded in order and the loop ends cleanly |
| ShpFormat.EncodedRecordReadsBack | src/spaceland/shp.py:161-179 | a well-formed record reads back as its shape wherever it sits in the data |
| ShpFormat.RecordListAt | src/spaceland/shp.py:161-179 | record k of a numbered list is shape k written with record number first + k |
| ShpFormat.RecordListReadsBack | src/spaceland/shp.py:161-179 | every record of a numbered list of well-formed records reads back as its shape |
| ShpFormat.ConcatReadsBack | src/spaceland/shp.py:161-179 | records that each read back, laid end to end, read back as their shapes in order with a clean end |
| ShpFormat.ScanRoundTrip | src/spaceland/shp.py:161-179 | any list of null and point records, numbered from any start, reads back as exactly that list with a clean end |
| ShpFormat.ShapefileRoundTrip | src/spaceland/shp.py:98-179 | a whole file of type null or point reads back its header and its records, including null placeholders in a point file |
| ShpFormat.NullRecordsYieldNulls | src/spaceland/shp.py:166-170 | k null records yield exactly k null shapes under either parser |
| ShpFormat.UnsupportedTypeReadsNothing | src/spaceland/shp.py:156-157 | a file of a known but unsupported type yields nothing and fails with not-implemented, whatever its records |
| ShpFormat.TruncatedPointFails | src/spaceland/shp.py:162-179 | a point record cut short anywhere, in its header or its content, is a struct error |
| ShpFormat.ShortContentLengthFails | src/spaceland/shp.py:171-178 | a record not tagged 0 whose content length is below 2 asks `read` for a count below -1, so the step fails with that count under either parser, whatever follows |
| ShpFile.Shapefile.Open | src/spaceland/shp.py:98-110 | construction fails with a struct error when ParseMeta does, and otherwise keeps ParseMeta's header, so that the object is valid; either way the cursor ends at byte 100, or at the end of shorter data |
| ShpFile.Shapefile.NextShape | src/spaceland/shp.py:162-179 | one loop pass is `ShpStep` at the cursor, and leaves the cursor at `StepEnd`, whatever the step gives |
| ShpFile.Shapefile.Records | src/spaceland/shp.py:141-179 | the generator's output is exactly `ShpRecords` on the stream's data, and it leaves the cursor at `ShpRecordsEnd` |
| ShpFile.Shapefile.RecordsTwice | src/spaceland/shp.py:156 | since each call seeks back to byte 100, two iterations yield the same shapes and the same error, and leave the cursor where one does |
| ShpFile.Shapefile.Iterate | src/spaceland/shp.py:112-113 | iteration is `records()`, in output and in where it leaves the cursor |

## Left out

- DbfValues.ParseFloat: models `float()` on decimal literals only (sign, digits, point, exponent). It gives an exact real. `inf`, `nan`, underscores and rounding to binary64 are not modelled.
- DbfValues.ParseInt: does not accept underscores between digits, which Python's `int()` does.
- DbfValues.ParseStr: models only the default `"ascii"` encoding. Other codecs are a foreign library.
- DbfFormat.DecodeDescriptor: keeps the field name as bytes with NULs stripped. It does not model the UTF-8 decode of the name or its `UnicodeDecodeError`.
- DbfFormat.DecodeRecord: gives a record as a sequence of values. It does not model the `namedtuple` type. Building that type raises `ValueError` for a field name that is not an identifier, is a keyword, starts with `_`, repeats an earlier name, or is empty (an all-NUL descriptor name). The model reads such a file as if the names were fine.
- DbfValues.ParseDate: does not model the `OverflowError` that `date()` raises, and `parse_date` does not catch, for a day part of 2^31 or more or below -2^31 (a D field of 16 bytes or more). The model gives None there; Python raises out of the record.
- ShpFormat.ParsePointRecord: keeps coordinates as raw 64-bit words. It does not model IEEE 754 doubles.
- ShpFormat.ParseMeta: keeps the eight bounds as raw 64-bit words, for the same reason.
- DbfFile.DbaseFile.Records: models the result of running the generator to its end. It does not model lazy suspension between items; Python also defers the seek until the first `next()`.
- ShpFile.Shapefile.Records: models the full run of the generator, for the same reason.
- Text after `str.strip()` is stripped of ASCII whitespace only. Non-ASCII characters never occur, because only ASCII text is decoded.
- `__enter__`, `__exit__` and closing the file: resource handling with no effect on what is read.
- cli.py, setup.py and docs/conf.py: command-line I/O and build configuration.
