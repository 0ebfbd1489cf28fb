/** `DbaseFile`: a dBase III table reader that owns its stream, parses the
    header once when it is opened, and reads records on demand. */
module DbfFile {
  import opened Bytes
  import opened Wrappers
  import opened DbfFormat
  import opened Streams

  class DbaseFile {
    /** The owned binary file. */
    const stream: Stream
    /** num_records, header_length, record_length and fields. */
    const table: Table

    constructor (stream: Stream, table: Table)
      ensures this.stream == stream && this.table == table
    {
      this.stream := stream;
      this.table := table;
    }

    /** The table is the one the stream's data declares. Open establishes
        it; the other methods are specified for any table. */
    predicate Valid() {
      ParseTable(stream.data) == Success(table)
    }

    /** `DbaseFile(dbf)`: seek to 0, read and unpack the 32-byte header, then
        read one 32-byte descriptor per `range(0, header_length - 33, 32)`
        step, dispatching on each type tag. Fails as ParseTable does. */
    static method Open(s: Stream) returns (r: Result<DbaseFile, DbfError>)
      modifies s
      ensures ParseTable(s.data).Failure? ==> r == Failure(ParseTable(s.data).error)
      ensures ParseTable(s.data).Success? ==>
        r.Success? && fresh(r.value) && r.value.stream == s && r.value.table == ParseTable(s.data).value
      ensures r.Success? ==> s.pos == HeaderSize + 32 * |r.value.table.fields|
      ensures r.Success? ==> r.value.Valid()
      ensures s.pos == ParseTableEnd(s.data)
    {
      var _ := s.Seek(0);
      var _, header := s.Read(HeaderSize);
      if |header| != HeaderSize {
        return Failure(StructError);
      }
      var numRecords := LittleEndian(header[4..8]);
      var headerLength := LittleEndian(header[8..10]);
      var recordLength := LittleEndian(header[10..12]);
      var fields := ReadFields(s, DescriptorCount(headerLength));
      if fields.Failure? {
        return Failure(fields.error);
      }
      ParseTableOf(s.data, fields.value);
      var file := new DbaseFile(s, Table(numRecords, headerLength, recordLength, fields.value));
      r := Success(file);
    }

    /** The descriptor loop of the constructor: read `count` descriptors one
        after another from where the header ended. */
    static method ReadFields(s: Stream, count: nat) returns (r: Result<seq<Field>, DbfError>)
      requires s.pos == HeaderSize
      modifies s
      ensures r == ParseFields(s.data, count)
      ensures r.Success? ==> s.pos == HeaderSize + 32 * count
      ensures s.pos == ParseFieldsEnd(s.data, count)
    {
      var fields: seq<Field> := [];
      var i := 0;
      while i < count
        invariant 0 <= i <= count
        invariant s.pos == HeaderSize + 32 * i
        invariant ParseFields(s.data, i) == Success(fields)
      {
        DescriptorAtPosition(s.data, s.pos, i);
        var _, d := s.Read(DescriptorSize);
        var f := DecodeDescriptor(d);
        if f.Failure? {
          ParseFieldsStopsAtFirstError(s.data, i, count);
          ParseFieldsEndAtError(s.data, i, count);
          return Failure(f.error);
        }
        ParseFieldsExtend(s.data, i, fields);
        fields := fields + [f.value];
        i := i + 1;
      }
      r := Success(fields);
    }
    /** `len(file)`: the header's record count, which is how many records
        iterating a well-formed file yields. */
    function Len(): (n: nat)
      ensures WellFormed(table, stream.data) ==> n == |RecordsFrom(table, stream.data, 0).items|
    {
      IterationLength(table, stream.data);
      table.numRecords
    }

    /** One step of the `records()` generator: read record_length bytes where
        the stream stands and decode them. */
    method NextRecord() returns (r: Result<Record, DbfError>)
      modifies stream
      ensures r == DecodeRecord(table.fields, ReadAt(stream.data, old(stream.pos), table.recordLength))
      ensures stream.pos == old(stream.pos) + |ReadAt(stream.data, old(stream.pos), table.recordLength)|
    {
      var _, chunk := stream.Read(table.recordLength);
      r := DecodeRecord(table.fields, chunk);
    }

    /** `list(records(start))`: seek to record `start`, then step
        numRecords times or until a step fails. */
    method Records(start: int) returns (sc: Scan<Record, DbfError>)
      modifies stream
      ensures sc == RecordsFrom(table, stream.data, start)
      ensures stream.pos == RecordsEnd(table, stream.data, start, old(stream.pos))
    {
      var offset := table.headerLength + table.recordLength * start;
      var ok := stream.Seek(offset);
      if !ok {
        return Scan([], Some(BadSeek(offset)));
      }
      sc := ScanFrom(offset);
    }

    /** The loop of `records()`: step numRecords times from `pos`, or until
        a step fails. */
    method ScanFrom(pos: nat) returns (sc: Scan<Record, DbfError>)
      requires stream.pos == pos
      modifies stream
      ensures sc == ScanRecords(table, stream.data, pos, table.numRecords)
      ensures stream.pos == ScanEnd(table, stream.data, pos, table.numRecords)
    {
      ghost var data, t, p, left := stream.data, table, pos, table.numRecords;
      var items: seq<Record> := [];
      var i := 0;
      while i < table.numRecords
        invariant 0 <= i <= t.numRecords && left == t.numRecords - i && stream.pos == p
        invariant Prepend(items, ScanRecords(t, data, p, left)) == ScanRecords(t, data, pos, t.numRecords)
        invariant ScanEnd(t, data, p, left) == ScanEnd(t, data, pos, t.numRecords)
      {
        ghost var chunk := ReadAt(data, p, t.recordLength);
        ScanRecordsStep(t, data, p, left);
        var r := NextRecord();
        if r.Failure? {
          ScanEndStop(t, data, p, left);
          PrependNothing(items, Some(r.error));
          return Scan(items, Some(r.error));
        }
        ghost var before, at, count := items, p, left;
        items := items + [r.value];
        i := i + 1;
        p, left := p + |chunk|, left - 1;
        ScanAdvance(t, data, pos, t.numRecords, at, count, before, r.value, p, left, items);
        ScanEndAdvance(t, data, pos, t.numRecords, at, count, p, left);
      }
      PrependNothing<Record, DbfError>(items, None);
      sc := Scan(items, None);
    }

    /** `list(file)`: iteration is `records()` from the first record. */
    method Iterate() returns (sc: Scan<Record, DbfError>)
      modifies stream
      ensures sc == RecordsFrom(table, stream.data, 0)
      ensures stream.pos == RecordsEnd(table, stream.data, 0, old(stream.pos))
    {
      sc := Records(0);
    }

    /** `record(index)`: `next(records(index))` after resolving a negative
        index against numRecords; it seeks straight to the record and reads
        once. */
    method Record(index: int) returns (r: Result<Record, DbfError>)
      modifies stream
      ensures r == RecordOf(table, stream.data, index)
      ensures stream.pos == RecordEnd(table, stream.data, index, old(stream.pos))
    {
      RecordOfReadsOne(table, stream.data, index);
      var i := if index < 0 then table.numRecords + index else index;
      var offset := table.headerLength + table.recordLength * i;
      var ok := stream.Seek(offset);
      if !ok {
        return Failure(BadSeek(offset));
      }
      if table.numRecords == 0 {
        return Failure(StopIteration);
      }
      r := NextRecord();
    }

    /** `file[key]`: refuses a non-int key and an int outside
        [-numRecords, numRecords), otherwise `record(key)`. */
    method GetItem(key: Key) returns (r: Result<Record, DbfError>)
      modifies stream
      ensures r == DbfFormat.GetItem(table, stream.data, key)
      ensures stream.pos == GetItemEnd(table, stream.data, key, old(stream.pos))
    {
      match key
      case OtherKey =>
        r := Failure(NonIntegerKey);
      case IntKey(k) =>
        if k >= table.numRecords || k < -(table.numRecords as int) {
          r := Failure(IndexOutOfRange);
        } else {
          r := Record(k);
        }
    }
  }
}
