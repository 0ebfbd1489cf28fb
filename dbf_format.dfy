/** The dBase III layout used by ESRI shapefiles: the 32-byte header, the
    32-byte field descriptors, the field-type dispatch, the fixed-stride
    records, and what `records()`, `record()` and `__getitem__` produce
    from a file's bytes. */
module DbfFormat {
  import opened Bytes
  import opened Wrappers
  import opened DbfValues

  /** The Python type a field's values have. */
  datatype FieldType = StrType | IntType | FloatType | DateType | BoolType

  /** One column: its name (NULs stripped), type, byte width and decimal
      count, as the descriptor stores them. */
  datatype Field = Field(name: seq<byte>, fieldType: FieldType, length: byte, decimals: byte)

  datatype Value =
    | StrValue(text: string)
    | IntValue(integer: int)
    | FloatValue(number: real)
    | DateValue(date: Date)
    | BoolValue(truth: bool)

  /** One decoded row: one entry per field, None where the bytes did not
      hold a value of the field's type. */
  type Record = seq<Option<Value>>

  /** What the constructor keeps: the three header numbers and the fields
      in file order. */
  datatype Table = Table(numRecords: nat, headerLength: nat, recordLength: nat, fields: seq<Field>)

  datatype DbfError =
    | StructError              // a read returned a length the layout does not allow
    | UnknownFieldType(tag: byte)
    | BadSeek(offset: int)     // seek to a negative (OSError) or over-wide (ValueError) offset
    | StopIteration            // `next()` on a generator that yields nothing
    | IndexOutOfRange
    | NonIntegerKey

  const HeaderSize: nat := 32
  const DescriptorSize: nat := 32

  const TagC: byte := 67   // 'C': character
  const TagN: byte := 78   // 'N': number
  const TagF: byte := 70   // 'F': floating point
  const TagD: byte := 68   // 'D': date
  const TagL: byte := 76   // 'L': logical

  // ---------------------------------------------------------------------
  // Type dispatch

  /** The type a descriptor's tag and decimal count select; any other tag
      is refused. */
  function FieldTypeOf(tag: byte, decimals: byte): (r: Result<FieldType, DbfError>)
    ensures r.Success? <==> tag in {TagC, TagN, TagF, TagD, TagL}
    ensures r.Failure? ==> r.error == UnknownFieldType(tag)
    ensures r == Success(StrType) <==> tag == TagC
    ensures r == Success(FloatType) <==> (tag == TagN || tag == TagF) && decimals > 0
    ensures r == Success(IntType) <==> (tag == TagN || tag == TagF) && decimals == 0
    ensures r == Success(DateType) <==> tag == TagD
    ensures r == Success(BoolType) <==> tag == TagL
  {
    if tag == TagC then Success(StrType)
    else if tag == TagN || tag == TagF then
      (if decimals > 0 then Success(FloatType) else Success(IntType))
    else if tag == TagD then Success(DateType)
    else if tag == TagL then Success(BoolType)
    else Failure(UnknownFieldType(tag))
  }

  /** `v` is a value of the Python type `t`. */
  predicate HasType(v: Value, t: FieldType) {
    match t
    case StrType => v.StrValue?
    case IntType => v.IntValue?
    case FloatType => v.FloatValue?
    case DateType => v.DateValue? && ValidDate(v.date)
    case BoolType => v.BoolValue?
  }

  /** The field parser the constructor picked for type `t`, applied to one
      field's bytes. */
  function ParseValue(t: FieldType, v: seq<byte>): (r: Option<Value>)
    ensures r.Some? ==> HasType(r.value, t)
    ensures t == StrType ==> (r.Some? <==> IsAscii(v))
    ensures (forall i :: 0 <= i < |v| ==> IsAsciiSpace(v[i])) && t in {IntType, FloatType, DateType} ==> r == None
  {
    match t
    case StrType => (match ParseStr(v) case Some(s) => Some(StrValue(s)) case None => None)
    case IntType => (match ParseInt(v) case Some(n) => Some(IntValue(n)) case None => None)
    case FloatType => (match ParseFloat(v) case Some(x) => Some(FloatValue(x)) case None => None)
    case DateType => (match ParseDate(v) case Some(d) => Some(DateValue(d)) case None => None)
    case BoolType => (match ParseBool(v) case Some(b) => Some(BoolValue(b)) case None => None)
  }

  // ---------------------------------------------------------------------
  // Header and descriptors

  /** How many times `range(0, headerLength - 33, 32)` runs: the number of
      descriptors the constructor reads. */
  function DescriptorCount(headerLength: int): (n: nat)
    ensures n == 0 || 32 * (n - 1) < headerLength - 33
    ensures headerLength - 33 <= 32 * n
  {
    if headerLength <= 33 then 0 else (headerLength - 33 + 31) / 32
  }

  predicate IsNul(b: byte) {
    b == 0
  }

  /** A 32-byte field descriptor: name in bytes 0-10, tag in byte 11,
      length in byte 16 and decimal count in byte 17; the rest is
      ignored. Any other length is a struct error. */
  function DecodeDescriptor(d: seq<byte>): (r: Result<Field, DbfError>)
    ensures |d| != DescriptorSize ==> r == Failure(StructError)
    ensures |d| == DescriptorSize ==> (r.Success? <==> FieldTypeOf(d[11], d[17]).Success?)
  {
    if |d| != DescriptorSize then Failure(StructError)
    else match FieldTypeOf(d[11], d[17])
      case Failure(e) => Failure(e)
      case Success(t) => Success(Field(Strip(d[..11], IsNul), t, d[16], d[17]))
  }

  /** The descriptor bytes for a field: the name NUL-padded to 11 bytes,
      the tag, four bytes of `gap`, length, decimals, fourteen bytes of
      `tail`. */
  function EncodeDescriptor(name: seq<byte>, tag: byte, length: byte, decimals: byte,
                            gap: seq<byte>, tail: seq<byte>): (d: seq<byte>)
    requires |name| <= 11 && |gap| == 4 && |tail| == 14
    ensures |d| == DescriptorSize
  {
    name + Repeat(0, 11 - |name|) + [tag] + gap + [length, decimals] + tail
  }

  /** Decoding a descriptor recovers what was written into it, whatever
      the ignored bytes hold. */
  lemma DescriptorRoundTrip(name: seq<byte>, tag: byte, length: byte, decimals: byte,
                            gap: seq<byte>, tail: seq<byte>)
    requires |name| <= 11 && |gap| == 4 && |tail| == 14
    requires name != [] && name[0] != 0 && name[|name| - 1] != 0
    requires tag in {TagC, TagN, TagF, TagD, TagL}
    ensures DecodeDescriptor(EncodeDescriptor(name, tag, length, decimals, gap, tail))
         == Success(Field(name, FieldTypeOf(tag, decimals).value, length, decimals))
  {
    DescriptorLayout(name, tag, length, decimals, gap, tail);
    StripPadded([], name, Repeat(0, 11 - |name|), IsNul);
  }

  /** Where EncodeDescriptor puts the name, the tag, the length and the
      decimal count. */
  lemma DescriptorLayout(name: seq<byte>, tag: byte, length: byte, decimals: byte,
                         gap: seq<byte>, tail: seq<byte>)
    requires |name| <= 11 && |gap| == 4 && |tail| == 14
    ensures EncodeDescriptor(name, tag, length, decimals, gap, tail)[..11]
         == name + Repeat(0, 11 - |name|)
    ensures EncodeDescriptor(name, tag, length, decimals, gap, tail)[11] == tag
    ensures EncodeDescriptor(name, tag, length, decimals, gap, tail)[16] == length
    ensures EncodeDescriptor(name, tag, length, decimals, gap, tail)[17] == decimals
  {
    var d := EncodeDescriptor(name, tag, length, decimals, gap, tail);
    assert d[..11] == name + Repeat(0, 11 - |name|);
  }

  /** The descriptor of field `k`, read from its place after the header. */
  function DescriptorAt(data: seq<byte>, k: nat): Result<Field, DbfError> {
    DecodeDescriptor(ReadAt(data, HeaderSize + 32 * k, DescriptorSize))
  }

  /** Descriptor `k` is what a 32-byte read at its position decodes to. */
  lemma DescriptorAtPosition(data: seq<byte>, pos: nat, k: nat)
    requires pos == HeaderSize + 32 * k
    ensures DescriptorAt(data, k) == DecodeDescriptor(ReadAt(data, pos, DescriptorSize))
  {
  }

  /** The first `count` descriptors, in file order, or the error of the
      first one that cannot be decoded. */
  function ParseFields(data: seq<byte>, count: nat): (r: Result<seq<Field>, DbfError>)
    ensures r.Success? ==> |r.value| == count
  {
    if count == 0 then Success([])
    else match ParseFields(data, count - 1)
      case Failure(e) => Failure(e)
      case Success(fs) =>
        match DescriptorAt(data, count - 1)
        case Failure(e) => Failure(e)
        case Success(f) => Success(fs + [f])
  }

  /** Field `k` of a successful parse is descriptor `k`, in file order. */
  lemma {:induction false} ParseFieldsAt(data: seq<byte>, count: nat, k: nat)
    requires ParseFields(data, count).Success? && k < count
    ensures DescriptorAt(data, k) == Success(ParseFields(data, count).value[k])
    decreases count
  {
    var fs := ParseFields(data, count - 1).value;
    var f := DescriptorAt(data, count - 1).value;
    assert ParseFields(data, count).value == fs + [f];
    if k < count - 1 {
      ParseFieldsAt(data, count - 1, k);
      assert (fs + [f])[k] == fs[k];
    }
  }

  /** A failed parse raises the error of one of the descriptors it read. */
  lemma {:induction false} ParseFieldsFailure(data: seq<byte>, count: nat)
    requires ParseFields(data, count).Failure?
    ensures exists k :: 0 <= k < count && DescriptorAt(data, k) == Failure(ParseFields(data, count).error)
    decreases count
  {
    if ParseFields(data, count - 1).Failure? {
      ParseFieldsFailure(data, count - 1);
      assert ParseFields(data, count).error == ParseFields(data, count - 1).error;
    } else {
      assert DescriptorAt(data, count - 1) == Failure(ParseFields(data, count).error);
    }
  }

  /** Once a descriptor fails, reading further descriptors keeps that
      failure. */
  lemma {:induction false} ParseFieldsFailurePersists(data: seq<byte>, j: nat, count: nat)
    requires j <= count && ParseFields(data, j).Failure?
    ensures ParseFields(data, count) == ParseFields(data, j)
    decreases count
  {
    if count > j {
      ParseFieldsFailurePersists(data, j, count - 1);
    }
  }

  /** Where reading the first `count` descriptors leaves the stream: after
      the last one on success, and right after the read of the first one
      that cannot be decoded otherwise. */
  function ParseFieldsEnd(data: seq<byte>, count: nat): (e: nat)
    ensures ParseFields(data, count).Success? ==> e == HeaderSize + 32 * count
    ensures e <= HeaderSize + 32 * count
  {
    if count == 0 then HeaderSize
    else if ParseFields(data, count - 1).Failure? then ParseFieldsEnd(data, count - 1)
    else DescriptorReadEnd(data, count - 1)
  }

  /** Where the read of descriptor `k` leaves the stream. */
  function DescriptorReadEnd(data: seq<byte>, k: nat): (e: nat)
    ensures e <= HeaderSize + 32 * (k + 1)
    ensures DescriptorAt(data, k).Success? ==> e == HeaderSize + 32 * (k + 1)
  {
    HeaderSize + 32 * k + |ReadAt(data, HeaderSize + 32 * k, DescriptorSize)|
  }

  /** Reading past the first descriptor that fails does not change where
      the descriptor loop leaves the stream. */
  lemma {:induction false} ParseFieldsEndAtError(data: seq<byte>, i: nat, count: nat)
    requires i < count && ParseFields(data, i).Success? && DescriptorAt(data, i).Failure?
    ensures ParseFieldsEnd(data, count) == DescriptorReadEnd(data, i)
  {
    ParseFieldsEndLast(data, i);
    assert ParseFields(data, i + 1).Failure? by {
      ParseFieldsStep(data, i);
    }
    ParseFieldsEndFrom(data, i + 1, count);
  }

  /** Once the descriptor loop has failed, asking it for more descriptors
      leaves the stream where it was. */
  lemma {:induction false} ParseFieldsEndFrom(data: seq<byte>, j: nat, count: nat)
    requires j <= count && ParseFields(data, j).Failure?
    ensures ParseFieldsEnd(data, count) == ParseFieldsEnd(data, j)
    decreases count
  {
    if count > j {
      ParseFieldsEndFrom(data, j, count - 1);
      ParseFieldsStaysFailed(data, j, count - 1);
      ParseFieldsEndUnchanged(data, count);
    }
  }

  /** A failed descriptor loop stays failed however many more descriptors
      it is asked for. */
  lemma {:induction false} ParseFieldsStaysFailed(data: seq<byte>, j: nat, count: nat)
    requires j <= count && ParseFields(data, j).Failure?
    ensures ParseFields(data, count).Failure?
    decreases count
  {
    if count > j {
      ParseFieldsStaysFailed(data, j, count - 1);
    }
  }

  /** After the descriptors read so far, the loop ends right after the read
      of the next one.
      Stated apart, with an empty body, so that the proofs that use it
      unfold the definitions only here. */
  lemma ParseFieldsEndLast(data: seq<byte>, i: nat)
    requires ParseFields(data, i).Success?
    ensures ParseFieldsEnd(data, i + 1) == DescriptorReadEnd(data, i)
  {
  }

  /** One more descriptor: its error, or the fields so far and it.
      Stated apart, with an empty body, so that the proofs that use it
      unfold the definitions only here. */
  lemma ParseFieldsStep(data: seq<byte>, i: nat)
    requires ParseFields(data, i).Success?
    ensures DescriptorAt(data, i).Failure? ==> ParseFields(data, i + 1) == Failure(DescriptorAt(data, i).error)
  {
  }

  /** Once the loop has failed it reads nothing more.
      Stated apart, with an empty body, so that the proofs that use it
      unfold the definitions only here. */
  lemma ParseFieldsEndUnchanged(data: seq<byte>, count: nat)
    requires count > 0 && ParseFields(data, count - 1).Failure?
    ensures ParseFieldsEnd(data, count) == ParseFieldsEnd(data, count - 1)
  {
  }

  /** The constructor stops at the first descriptor it cannot decode and
      raises that descriptor's error. */
  lemma ParseFieldsStopsAtFirstError(data: seq<byte>, i: nat, count: nat)
    requires i < count && ParseFields(data, i).Success? && DescriptorAt(data, i).Failure?
    ensures ParseFields(data, count) == Failure(DescriptorAt(data, i).error)
  {
    assert ParseFields(data, i + 1) == Failure(DescriptorAt(data, i).error);
    ParseFieldsFailurePersists(data, i + 1, count);
  }

  /** Reading one more descriptor extends the fields read so far. */
  lemma ParseFieldsExtend(data: seq<byte>, i: nat, fields: seq<Field>)
    requires ParseFields(data, i) == Success(fields) && DescriptorAt(data, i).Success?
    ensures ParseFields(data, i + 1) == Success(fields + [DescriptorAt(data, i).value])
  {
  }

  /** `DbaseFile.__init__`: the header numbers (u32 LE at bytes 4-7, u16 LE
      at bytes 8-9 and 10-11) and the descriptors that follow. */
  function ParseTable(data: seq<byte>): (r: Result<Table, DbfError>)
    ensures |data| < HeaderSize ==> r == Failure(StructError)
    ensures r.Success? ==>
      r.value.numRecords < Pow256(4) && r.value.headerLength < Pow256(2) && r.value.recordLength < Pow256(2)
    ensures r.Success? ==> |r.value.fields| == DescriptorCount(r.value.headerLength)
  {
    var header := ReadAt(data, 0, HeaderSize);
    if |header| != HeaderSize then Failure(StructError)
    else
      var headerLength := LittleEndian(header[8..10]);
      match ParseFields(data, DescriptorCount(headerLength))
      case Failure(e) => Failure(e)
      case Success(fields) =>
        Success(Table(LittleEndian(header[4..8]), headerLength, LittleEndian(header[10..12]), fields))
  }

  /** Where `DbaseFile(dbf)` leaves the stream, whether it succeeds or not:
      after what the header read got when that is short, and otherwise
      where the descriptor loop stops. */
  function ParseTableEnd(data: seq<byte>): (e: nat)
    ensures |data| < HeaderSize ==> e == |data|
    ensures ParseTable(data).Success? ==> e == HeaderSize + 32 * |ParseTable(data).value.fields|
  {
    var header := ReadAt(data, 0, HeaderSize);
    if |header| != HeaderSize then |header|
    else ParseFieldsEnd(data, DescriptorCount(LittleEndian(header[8..10])))
  }

  /** The table ParseTable builds once all descriptors have been read. */
  lemma ParseTableOf(data: seq<byte>, fields: seq<Field>)
    requires |ReadAt(data, 0, HeaderSize)| == HeaderSize
    requires var h := ReadAt(data, 0, HeaderSize);
      ParseFields(data, DescriptorCount(LittleEndian(h[8..10]))) == Success(fields)
    ensures var h := ReadAt(data, 0, HeaderSize);
      ParseTable(data)
        == Success(Table(LittleEndian(h[4..8]), LittleEndian(h[8..10]), LittleEndian(h[10..12]), fields))
  {
  }

  /** The fields of an opened table are its descriptors, in file order. */
  lemma ParseTableFieldAt(data: seq<byte>, k: nat)
    requires ParseTable(data).Success? && k < |ParseTable(data).value.fields|
    ensures DescriptorAt(data, k) == Success(ParseTable(data).value.fields[k])
  {
    ParseFieldsAt(data, DescriptorCount(ParseTable(data).value.headerLength), k);
  }

  /** A header with the given numbers and arbitrary `version` (4 bytes) and
      `reserved` (20 bytes) parts. */
  function EncodeHeader(numRecords: nat, headerLength: nat, recordLength: nat,
                        version: seq<byte>, reserved: seq<byte>): (h: seq<byte>)
    requires numRecords < Pow256(4) && headerLength < Pow256(2) && recordLength < Pow256(2)
    requires |version| == 4 && |reserved| == 20
    ensures |h| == HeaderSize
  {
    version + ToLittleEndian(numRecords, 4) + ToLittleEndian(headerLength, 2)
      + ToLittleEndian(recordLength, 2) + reserved
  }

  /** The constructor reads back the three numbers the header stores, and
      nothing else in the header changes what it reads. */
  lemma HeaderRoundTrip(numRecords: nat, headerLength: nat, recordLength: nat,
                        version: seq<byte>, reserved: seq<byte>, rest: seq<byte>)
    requires numRecords < Pow256(4) && headerLength < Pow256(2) && recordLength < Pow256(2)
    requires |version| == 4 && |reserved| == 20
    requires ParseTable(EncodeHeader(numRecords, headerLength, recordLength, version, reserved) + rest).Success?
    ensures var t := ParseTable(EncodeHeader(numRecords, headerLength, recordLength, version, reserved) + rest).value;
      t.numRecords == numRecords && t.headerLength == headerLength && t.recordLength == recordLength
  {
    var h := EncodeHeader(numRecords, headerLength, recordLength, version, reserved);
    var data := h + rest;
    assert ReadAt(data, 0, HeaderSize) == h;
    assert h[4..8] == ToLittleEndian(numRecords, 4);
    assert h[8..10] == ToLittleEndian(headerLength, 2);
    assert h[10..12] == ToLittleEndian(recordLength, 2);
    LittleEndianOfToLittleEndian(numRecords, 4);
    LittleEndianOfToLittleEndian(headerLength, 2);
    LittleEndianOfToLittleEndian(recordLength, 2);
  }

  /** When the header length is exactly header, descriptors and the 0x0D
      terminator, the constructor reads exactly that many descriptors;
      the sample file's 193 gives its five fields. */
  lemma DescriptorCountOfLayout(fieldCount: nat)
    ensures DescriptorCount(HeaderSize + 32 * fieldCount + 1) == fieldCount
    ensures DescriptorCount(193) == 5
  {
  }

  /** A file the constructor accepts has only known type tags in the
      descriptors it read. */
  lemma ParsedTagsAreKnown(data: seq<byte>, k: nat)
    requires ParseTable(data).Success? && k < |ParseTable(data).value.fields|
    ensures HeaderSize + 32 * (k + 1) <= |data|
    ensures data[HeaderSize + 32 * k + 11] in {TagC, TagN, TagF, TagD, TagL}
  {
    var p := HeaderSize + 32 * k;
    var d := ReadAt(data, p, DescriptorSize);
    ParseTableFieldAt(data, k);
    assert |d| == DescriptorSize;
    assert d[11] == data[p + 11];
  }

  // ---------------------------------------------------------------------
  // Records

  function SumLengths(fields: seq<Field>): nat {
    if fields == [] then 0 else fields[0].length + SumLengths(fields[1..])
  }

  /** The byte count struct's `"<x" + "{n}s"...` format unpacks: the
      deletion flag plus every field's width. */
  function RecordSize(fields: seq<Field>): nat {
    1 + SumLengths(fields)
  }

  /** Where field `i` starts within a record, after the deletion flag. */
  function Offset(fields: seq<Field>, i: nat): (n: nat)
    requires i <= |fields|
    ensures i < |fields| ==> n + fields[i].length <= SumLengths(fields)
    ensures i == |fields| ==> n == SumLengths(fields)
  {
    if i == 0 then 0 else fields[0].length + Offset(fields[1..], i - 1)
  }

  /** struct's unpack of the field part of a record: consecutive slices,
      one per field in field order, each as wide as its field. */
  function Slices(fields: seq<Field>, b: seq<byte>): (r: seq<seq<byte>>)
    requires |b| == SumLengths(fields)
    ensures |r| == |fields|
  {
    if fields == [] then []
    else [b[..fields[0].length]] + Slices(fields[1..], b[fields[0].length..])
  }

  /** Past the first field, slicing and offsets continue in the rest of
      the record.
      Stated apart, with an empty body, so that the proofs that use it
      unfold the definitions only here. */
  lemma SlicesTail(fields: seq<Field>, b: seq<byte>, i: nat)
    requires |b| == SumLengths(fields) && 0 < i < |fields|
    ensures fields[0].length <= |b| && |b[fields[0].length..]| == SumLengths(fields[1..])
    ensures fields[1..][i - 1] == fields[i]
    ensures Slices(fields, b)[i] == Slices(fields[1..], b[fields[0].length..])[i - 1]
    ensures Offset(fields, i) == fields[0].length + Offset(fields[1..], i - 1)
  {
  }

  /** Slice `i` is the bytes of field `i`, starting at its offset. */
  lemma {:induction false} SliceAt(fields: seq<Field>, b: seq<byte>, i: nat)
    requires |b| == SumLengths(fields) && i < |fields|
    ensures Offset(fields, i) + fields[i].length <= |b|
    ensures Slices(fields, b)[i] == b[Offset(fields, i)..Offset(fields, i) + fields[i].length]
  {
    if i > 0 {
      var n := fields[0].length;
      SlicesTail(fields, b, i);
      SliceAt(fields[1..], b[n..], i - 1);
      var o := Offset(fields[1..], i - 1);
      SliceOfSuffix(b, n, o, fields[i].length);
    }
  }

  /** Each field's parser applied to its own slice. */
  function ParseFieldsValues(fields: seq<Field>, slices: seq<seq<byte>>): (r: Record)
    requires |slices| == |fields|
    ensures |r| == |fields|
  {
    seq(|fields|, i requires 0 <= i < |fields| => ParseValue(fields[i].fieldType, slices[i]))
  }

  /** One `read(record_length)` turned into a record: the unpack succeeds
      only on exactly RecordSize bytes; byte 0 is dropped. */
  function DecodeRecord(fields: seq<Field>, chunk: seq<byte>): (r: Result<Record, DbfError>)
    ensures r.Success? <==> |chunk| == RecordSize(fields)
    ensures r.Failure? ==> r.error == StructError
    ensures r.Success? ==> |r.value| == |fields|
  {
    if |chunk| != RecordSize(fields) then Failure(StructError)
    else Success(ParseFieldsValues(fields, Slices(fields, chunk[1..])))
  }

  /** The bytes of field `i` in one record read: its own width, at its
      offset after the deletion flag. */
  function FieldBytes(fields: seq<Field>, chunk: seq<byte>, i: nat): (r: seq<byte>)
    requires |chunk| == RecordSize(fields) && i < |fields|
    ensures 1 + Offset(fields, i) + fields[i].length <= |chunk|
    ensures r == chunk[1 + Offset(fields, i)..1 + Offset(fields, i) + fields[i].length]
  {
    SliceAt(fields, chunk[1..], i);
    SliceOfSuffix(chunk, 1, Offset(fields, i), fields[i].length);
    Slices(fields, chunk[1..])[i]
  }

  /** Value `i` of a decoded record is field `i`'s parser applied to that
      field's bytes. */
  lemma RecordValueAt(fields: seq<Field>, chunk: seq<byte>, i: nat)
    requires |chunk| == RecordSize(fields) && i < |fields|
    ensures DecodeRecord(fields, chunk).value[i] == ParseValue(fields[i].fieldType, FieldBytes(fields, chunk, i))
  {
  }

  /** The loop of `records()`: read `count` records from position `pos`, each
      read starting where the previous one ended, stopping at the first
      record that cannot be unpacked. */
  function ScanRecords(t: Table, data: seq<byte>, pos: nat, count: nat): (r: Scan<Record, DbfError>)
    ensures |r.items| <= count
    ensures r.stop == None <==> |r.items| == count
    ensures r.stop != None ==> r.stop == Some(StructError)
    decreases count
  {
    if count == 0 then Scan([], None)
    else
      var chunk := ReadAt(data, pos, t.recordLength);
      match DecodeRecord(t.fields, chunk)
      case Failure(e) => Scan([], Some(e))
      case Success(rec) => Prepend([rec], ScanRecords(t, data, pos + |chunk|, count - 1))
  }

  /** Where the stream stands once the `records()` loop from `pos` stops:
      after the last read, whether its record decoded or not. */
  function ScanEnd(t: Table, data: seq<byte>, pos: nat, count: nat): (e: nat)
    ensures pos <= e
    ensures pos <= |data| ==> e <= |data|
    decreases count
  {
    if count == 0 then pos
    else
      var chunk := ReadAt(data, pos, t.recordLength);
      if DecodeRecord(t.fields, chunk).Failure? then pos + |chunk|
      else ScanEnd(t, data, pos + |chunk|, count - 1)
  }

  /** A turn of the `records()` loop whose record does not decode leaves
      the stream right after its read.
      Stated apart, with an empty body, so that the proofs that use it
      unfold the definitions only here. */
  lemma ScanEndStop(t: Table, data: seq<byte>, pos: nat, count: nat)
    requires count > 0 && DecodeRecord(t.fields, ReadAt(data, pos, t.recordLength)).Failure?
    ensures ScanEnd(t, data, pos, count) == pos + |ReadAt(data, pos, t.recordLength)|
  {
  }

  /** A turn of the `records()` loop whose record decodes does not change
      where the loop will leave the stream.
      Stated apart, with an empty body, so that the proofs that use it
      unfold the definitions only here. */
  lemma ScanEndAdvance(t: Table, data: seq<byte>, start: nat, total: nat, pos: nat, count: nat,
                       nextPos: nat, nextCount: nat)
    requires count > 0 && DecodeRecord(t.fields, ReadAt(data, pos, t.recordLength)).Success?
    requires ScanEnd(t, data, pos, count) == ScanEnd(t, data, start, total)
    requires nextPos == pos + |ReadAt(data, pos, t.recordLength)| && nextCount == count - 1
    ensures ScanEnd(t, data, nextPos, nextCount) == ScanEnd(t, data, start, total)
  {
  }

  /** One turn of the `records()` loop: decode the read at `pos`, then
      either stop on its error or go on from where it ended.
      Stated apart, with an empty body, so that the proofs that use it
      unfold the definitions only here. */
  lemma ScanRecordsStep(t: Table, data: seq<byte>, pos: nat, count: nat)
    requires count > 0
    ensures var chunk := ReadAt(data, pos, t.recordLength);
      var r := DecodeRecord(t.fields, chunk);
      ScanRecords(t, data, pos, count)
        == if r.Failure? then Scan([], Some(r.error))
           else Prepend([r.value], ScanRecords(t, data, pos + |chunk|, count - 1))
  {
  }

  /** A turn of the `records()` loop whose read decodes yields that record
      first.
      Stated apart, with an empty body, so that the proofs that use it
      unfold the definitions only here. */
  lemma ScanRecordsDecoded(t: Table, data: seq<byte>, pos: nat, count: nat, rec: Record)
    requires count > 0 && DecodeRecord(t.fields, ReadAt(data, pos, t.recordLength)) == Success(rec)
    ensures ScanRecords(t, data, pos, count)
         == Prepend([rec], ScanRecords(t, data, pos + |ReadAt(data, pos, t.recordLength)|, count - 1))
  {
  }

  /** The invariant of the `records()` loop survives one successful step:
      the record read at `pos` joins the records already yielded, and the
      rest of the run starts where the read ended. */
  lemma ScanAdvance(t: Table, data: seq<byte>, start: nat, total: nat, pos: nat, count: nat,
                    items: seq<Record>, rec: Record, nextPos: nat, nextCount: nat, nextItems: seq<Record>)
    requires count > 0
    requires Prepend(items, ScanRecords(t, data, pos, count)) == ScanRecords(t, data, start, total)
    requires DecodeRecord(t.fields, ReadAt(data, pos, t.recordLength)) == Success(rec)
    requires nextPos == pos + |ReadAt(data, pos, t.recordLength)| && nextCount == count - 1
    requires nextItems == items + [rec]
    ensures Prepend(nextItems, ScanRecords(t, data, nextPos, nextCount)) == ScanRecords(t, data, start, total)
  {
    var rest := ScanRecords(t, data, nextPos, nextCount);
    ScanRecordsDecoded(t, data, pos, count, rec);
    PrependSnoc(items, rec, rest);
  }

  /** `list(records(start))`: seek to the record `start` (refused when the
      position is negative or does not fit a 64-bit offset), then read `numRecords` records, whatever
      `start` is. */
  function RecordsFrom(t: Table, data: seq<byte>, start: int): (r: Scan<Record, DbfError>)
    ensures |r.items| <= t.numRecords
  {
    var offset := t.headerLength + t.recordLength * start;
    if !SeekAllowed(offset) then Scan([], Some(BadSeek(offset)))
    else ScanRecords(t, data, offset, t.numRecords)
  }

  /** Where `list(records(start))` leaves a stream that stood at `before`:
      a refused seek does not move it. */
  function RecordsEnd(t: Table, data: seq<byte>, start: int, before: nat): (e: nat)
    ensures !SeekAllowed(t.headerLength + t.recordLength * start) ==> e == before
    ensures SeekAllowed(t.headerLength + t.recordLength * start) ==> t.headerLength + t.recordLength * start <= e
  {
    var offset := t.headerLength + t.recordLength * start;
    if !SeekAllowed(offset) then before
    else ScanEnd(t, data, offset, t.numRecords)
  }

  /** `record(index)`: a negative index counts from the end, with no bounds
      check, then `next(records(index))`. */
  function RecordOf(t: Table, data: seq<byte>, index: int): Result<Record, DbfError> {
    var i := if index < 0 then t.numRecords + index else index;
    var sc := RecordsFrom(t, data, i);
    if sc.items != [] then Success(sc.items[0])
    else if sc.stop.Some? then Failure(sc.stop.value)
    else Failure(StopIteration)
  }

  /** Where `record(index)` leaves a stream that stood at `before`: the
      generator stops after its first read, or right after its seek when
      there are no records to read. */
  function RecordEnd(t: Table, data: seq<byte>, index: int, before: nat): (e: nat)
    ensures var i := if index < 0 then t.numRecords + index else index;
      var offset := t.headerLength + t.recordLength * i;
      (!SeekAllowed(offset) ==> e == before) &&
      (SeekAllowed(offset) && t.numRecords == 0 ==> e == offset) &&
      (SeekAllowed(offset) && t.numRecords > 0 ==> e == offset + |ReadAt(data, offset, t.recordLength)|)
  {
    var i := if index < 0 then t.numRecords + index else index;
    var offset := t.headerLength + t.recordLength * i;
    if !SeekAllowed(offset) then before
    else ScanEnd(t, data, offset, if t.numRecords == 0 then 0 else 1)
  }

  /** The key of `__getitem__`: an int, or anything else. */
  datatype Key = IntKey(i: int) | OtherKey

  /** `__getitem__`: only an int key within [-numRecords, numRecords) reaches
      `record`. */
  function GetItem(t: Table, data: seq<byte>, key: Key): (r: Result<Record, DbfError>)
    ensures key.OtherKey? ==> r == Failure(NonIntegerKey)
    ensures key.IntKey? && (key.i >= t.numRecords || key.i < -(t.numRecords as int)) ==> r == Failure(IndexOutOfRange)
    ensures key.IntKey? && -(t.numRecords as int) <= key.i < t.numRecords ==> r == RecordOf(t, data, key.i)
  {
    match key
    case OtherKey => Failure(NonIntegerKey)
    case IntKey(k) =>
      if k >= t.numRecords || k < -(t.numRecords as int) then Failure(IndexOutOfRange)
      else RecordOf(t, data, k)
  }

  /** Where `file[key]` leaves a stream that stood at `before`: a refused
      key does not move it. */
  function GetItemEnd(t: Table, data: seq<byte>, key: Key, before: nat): (e: nat)
    ensures key.OtherKey? ==> e == before
    ensures key.IntKey? && (key.i >= t.numRecords || key.i < -(t.numRecords as int)) ==> e == before
    ensures key.IntKey? && -(t.numRecords as int) <= key.i < t.numRecords ==> e == RecordEnd(t, data, key.i, before)
  {
    match key
    case OtherKey => before
    case IntKey(k) =>
      if k >= t.numRecords || k < -(t.numRecords as int) then before
      else RecordEnd(t, data, k, before)
  }

  // ---------------------------------------------------------------------
  // Properties of record access

  /** `record(index)` costs one read: it decodes the record_length bytes at
      the resolved index's offset. */
  lemma RecordOfReadsOne(t: Table, data: seq<byte>, index: int)
    ensures var i := if index < 0 then t.numRecords + index else index;
      var offset := t.headerLength + t.recordLength * i;
      RecordOf(t, data, index)
        == if !SeekAllowed(offset) then Failure(BadSeek(offset))
           else if t.numRecords == 0 then Failure(StopIteration)
           else DecodeRecord(t.fields, ReadAt(data, offset, t.recordLength))
  {
  }

  /** A start or index whose offset does not fit a 64-bit file offset is
      refused at the seek, before any read, and leaves the stream where it
      stood, even when the table has no records. */
  lemma OverWideSeekRefused(t: Table, data: seq<byte>, start: nat, before: nat)
    requires t.headerLength + t.recordLength * start >= OffsetLimit
    ensures RecordsFrom(t, data, start) == Scan([], Some(BadSeek(t.headerLength + t.recordLength * start)))
    ensures RecordsEnd(t, data, start, before) == before
    ensures RecordOf(t, data, start) == Failure(BadSeek(t.headerLength + t.recordLength * start))
    ensures RecordEnd(t, data, start, before) == before
  {
    RecordOfReadsOne(t, data, start);
  }

  /** A read shorter than a record ends the scan after at most that one
      record: the next read starts at the end of the data and returns
      nothing. */
  lemma ShortReadStops(t: Table, data: seq<byte>, pos: nat, count: nat)
    ensures |ReadAt(data, pos, t.recordLength)| < t.recordLength ==>
      |ScanRecords(t, data, pos, count).items| <= 1
  {
    var chunk := ReadAt(data, pos, t.recordLength);
    if |chunk| < t.recordLength && count > 1 && DecodeRecord(t.fields, chunk).Success? {
      assert ReadAt(data, pos + |chunk|, t.recordLength) == [];
      assert ScanRecords(t, data, pos + |chunk|, count - 1).items == [];
    }
  }

  /** The record-length read at `p` decodes to `rec`. */
  predicate SlotHolds(t: Table, data: seq<byte>, p: nat, rec: Record) {
    DecodeRecord(t.fields, ReadAt(data, p, t.recordLength)) == Success(rec)
  }

  /** Each record a scan yields was read from its fixed-stride slot. */
  lemma {:induction false} ScanItemAt(t: Table, data: seq<byte>, pos: nat, count: nat, k: nat)
    requires k < |ScanRecords(t, data, pos, count).items|
    ensures SlotHolds(t, data, SlotOf(pos, t.recordLength, k), ScanRecords(t, data, pos, count).items[k])
    decreases count
  {
    if k == 0 {
      ScanRecordsStep(t, data, pos, count);
      assert SlotOf(pos, t.recordLength, k) == pos;
    } else {
      ScanItemsShift(t, data, pos, count, k);
      ScanItemAt(t, data, pos + t.recordLength, count - 1, k - 1);
      NextSlot(pos, t.recordLength, k, pos + t.recordLength);
    }
  }

  /** Past the first record, the records of a scan are those of the scan
      from the next slot: the first read was a full one. */
  lemma ScanItemsShift(t: Table, data: seq<byte>, pos: nat, count: nat, k: nat)
    requires 0 < k < |ScanRecords(t, data, pos, count).items|
    ensures count > 0 && k - 1 < |ScanRecords(t, data, pos + t.recordLength, count - 1).items|
    ensures ScanRecords(t, data, pos, count).items[k]
         == ScanRecords(t, data, pos + t.recordLength, count - 1).items[k - 1]
  {
    var chunk := ReadAt(data, pos, t.recordLength);
    ScanRecordsStep(t, data, pos, count);
    ShortReadStops(t, data, pos, count);
    assert |chunk| == t.recordLength;
    PrependOneAt(DecodeRecord(t.fields, chunk).value, ScanRecords(t, data, pos + |chunk|, count - 1), k);
  }

  /** The slot k strides after `pos` is the slot k - 1 strides after the
      next one.
      Stated apart, with an empty body, so that the proofs that use it
      unfold the definitions only here. */
  lemma NextSlot(pos: nat, stride: nat, k: nat, next: nat)
    requires k > 0 && next == pos + stride
    ensures SlotOf(pos, stride, k) == SlotOf(next, stride, k - 1)
  {
  }

  /** Where record `k` starts when records of `stride` bytes follow one
      another from `pos`. */
  function SlotOf(pos: nat, stride: nat, k: nat): nat {
    pos + stride * k
  }

  /** The data holds every record the header announces, each exactly as long
      as its fields, and is no longer than a file can be. */
  predicate WellFormed(t: Table, data: seq<byte>) {
    t.recordLength == RecordSize(t.fields) &&
    t.headerLength + t.recordLength * t.numRecords <= |data| < OffsetLimit
  }

  /** Over well-formed data a scan of `count` full slots yields `count`
      records and ends cleanly. */
  lemma {:induction false} ScanComplete(t: Table, data: seq<byte>, pos: nat, count: nat)
    requires t.recordLength == RecordSize(t.fields)
    requires pos + t.recordLength * count <= |data|
    ensures ScanRecords(t, data, pos, count).stop == None
    decreases count
  {
    if count > 0 {
      assert t.recordLength * count == t.recordLength + t.recordLength * (count - 1);
      ScanComplete(t, data, pos + t.recordLength, count - 1);
    }
  }

  /** Over full slots the `records()` loop stops right after its last
      slot. */
  lemma {:induction false} ScanEndComplete(t: Table, data: seq<byte>, pos: nat, count: nat)
    requires t.recordLength == RecordSize(t.fields)
    requires pos + t.recordLength * count <= |data|
    ensures ScanEnd(t, data, pos, count) == pos + t.recordLength * count
    decreases count
  {
    if count > 0 {
      assert t.recordLength * count == t.recordLength + t.recordLength * (count - 1);
      ScanEndComplete(t, data, pos + t.recordLength, count - 1);
    }
  }

  /** A full iteration of well-formed data leaves the stream right after
      the last record the header announces. */
  lemma IterationEnd(t: Table, data: seq<byte>, before: nat)
    requires WellFormed(t, data)
    ensures RecordsEnd(t, data, 0, before) == t.headerLength + t.recordLength * t.numRecords
  {
    ScanEndComplete(t, data, t.headerLength, t.numRecords);
  }

  /** Indexing well-formed data in range leaves the stream right after the
      record it returns. */
  lemma GetItemEndsAfterRecord(t: Table, data: seq<byte>, k: nat, before: nat)
    requires WellFormed(t, data) && k < t.numRecords
    ensures GetItemEnd(t, data, IntKey(k), before) == t.headerLength + t.recordLength * k + t.recordLength
    ensures GetItemEnd(t, data, IntKey(k - t.numRecords), before) == t.headerLength + t.recordLength * k + t.recordLength
  {
    StrideBound(t.recordLength, k, t.numRecords);
  }

  /** `len()` is the length of a full iteration: on well-formed data,
      iterating from the first record yields numRecords records and ends
      cleanly. */
  lemma IterationLength(t: Table, data: seq<byte>)
    ensures WellFormed(t, data) ==>
      RecordsFrom(t, data, 0).stop == None && |RecordsFrom(t, data, 0).items| == t.numRecords
  {
    if WellFormed(t, data) {
      ScanComplete(t, data, t.headerLength, t.numRecords);
    }
  }

  /** Iteration and indexing agree: over well-formed data, iterating yields
      `len()` records, and record k of the iteration is what `[k]` and
      `[k - len()]` return. */
  lemma IterationMatchesIndexing(t: Table, data: seq<byte>, k: nat)
    requires WellFormed(t, data) && k < t.numRecords
    ensures RecordsFrom(t, data, 0).stop == None
    ensures |RecordsFrom(t, data, 0).items| == t.numRecords
    ensures GetItem(t, data, IntKey(k)) == Success(RecordsFrom(t, data, 0).items[k])
    ensures GetItem(t, data, IntKey(k - t.numRecords)) == Success(RecordsFrom(t, data, 0).items[k])
  {
    ScanComplete(t, data, t.headerLength, t.numRecords);
    ScanItemAt(t, data, t.headerLength, t.numRecords, k);
    StrideBound(t.recordLength, k, t.numRecords);
    RecordOfReadsOne(t, data, k);
    RecordOfReadsOne(t, data, k - t.numRecords);
  }

  lemma {:induction false} StrideBound(stride: nat, k: nat, n: nat)
    requires k < n
    ensures stride * k + stride <= stride * n
    decreases n
  {
    assert stride * n == stride * (n - 1) + stride;
    if k < n - 1 {
      StrideBound(stride, k, n - 1);
    }
  }

  /** `records(start)` still reads numRecords times: on data that ends after
      the last record, starting at record `start` yields the numRecords -
      start remaining records and then fails on the short read. */
  lemma RecordsFromStartOverruns(t: Table, data: seq<byte>, start: nat)
    requires WellFormed(t, data) && 0 < start <= t.numRecords
    requires |data| < t.headerLength + t.recordLength * (t.numRecords + 1)
    ensures |RecordsFrom(t, data, start).items| == t.numRecords - start
    ensures RecordsFrom(t, data, start).stop == Some(StructError)
  {
    var offset := t.headerLength + t.recordLength * start;
    assert RecordsFrom(t, data, start) == ScanRecords(t, data, offset, t.numRecords) by {
      SlotSeekable(t, data, start);
    }
    OverrunSlots(t, data, start);
    ScanOverrun(t, data, offset, t.numRecords - start, t.numRecords);
  }

  /** Starting at record `start`, the data still holds the numRecords -
      start records that follow, and not one more. */
  lemma OverrunSlots(t: Table, data: seq<byte>, start: nat)
    requires 0 < start <= t.numRecords
    requires t.headerLength + t.recordLength * t.numRecords <= |data|
    requires |data| < t.headerLength + t.recordLength * (t.numRecords + 1)
    ensures var offset := t.headerLength + t.recordLength * start;
      offset + t.recordLength * (t.numRecords - start) <= |data| < offset + t.recordLength * (t.numRecords - start + 1)
  {
    var rest := t.numRecords - start;
    assert t.recordLength * start + t.recordLength * rest == t.recordLength * t.numRecords;
    assert t.recordLength * (rest + 1) == t.recordLength * rest + t.recordLength;
    assert t.recordLength * (t.numRecords + 1) == t.recordLength * t.numRecords + t.recordLength;
  }

  /** On well-formed data the offset of every slot up to the end of the
      last record fits a file offset. */
  lemma SlotSeekable(t: Table, data: seq<byte>, k: nat)
    requires WellFormed(t, data) && k <= t.numRecords
    ensures SeekAllowed(t.headerLength + t.recordLength * k)
  {
    if k < t.numRecords {
      StrideBound(t.recordLength, k, t.numRecords);
    }
  }

  lemma {:induction false} ScanOverrun(t: Table, data: seq<byte>, pos: nat, full: nat, count: nat)
    requires t.recordLength == RecordSize(t.fields)
    requires full < count
    requires pos + t.recordLength * full <= |data| < pos + t.recordLength * (full + 1)
    ensures |ScanRecords(t, data, pos, count).items| == full
    ensures ScanRecords(t, data, pos, count).stop == Some(StructError)
    decreases full
  {
    if full > 0 {
      assert t.recordLength * full == t.recordLength + t.recordLength * (full - 1);
      assert t.recordLength * (full + 1) == t.recordLength + t.recordLength * full;
      ScanOverrun(t, data, pos + t.recordLength, full - 1, count - 1);
    } else {
      assert |ReadAt(data, pos, t.recordLength)| < t.recordLength;
    }
  }

  /** `record()` has no bounds check: on a well-formed file whose header is at
      least one record long, `record(-numRecords - 1)` wraps to index -1 and
      decodes the last record_length bytes of the header, while the same
      index through `__getitem__` is refused. */
  lemma RecordBelowRangeReadsHeader(t: Table, data: seq<byte>)
    requires WellFormed(t, data) && t.numRecords > 0 && t.recordLength <= t.headerLength
    ensures RecordOf(t, data, -(t.numRecords as int) - 1)
         == DecodeRecord(t.fields, data[t.headerLength - t.recordLength..t.headerLength])
    ensures RecordOf(t, data, -(t.numRecords as int) - 1).Success?
    ensures GetItem(t, data, IntKey(-(t.numRecords as int) - 1)) == Failure(IndexOutOfRange)
  {
    var index := -(t.numRecords as int) - 1;
    var offset := t.headerLength - t.recordLength;
    var chunk := data[offset..t.headerLength];
    assert ReadAt(data, offset, t.recordLength) == chunk;
    assert RecordOf(t, data, index) == DecodeRecord(t.fields, chunk) by {
      assert t.headerLength + t.recordLength * -1 == offset;
      RecordOfReadsOne(t, data, index);
    }
  }
}
