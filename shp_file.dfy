/** `Shapefile`: an ESRI shapefile reader that owns its stream, unpacks the
    header once when it is opened, and walks the records on each
    iteration. */
module ShpFile {
  import opened Bytes
  import opened Wrappers
  import opened ShpFormat
  import opened Streams

  class Shapefile {
    /** The owned binary file. */
    const stream: Stream
    /** The unpacked header. */
    const meta: Meta

    constructor (stream: Stream, meta: Meta)
      ensures this.stream == stream && this.meta == meta
    {
      this.stream := stream;
      this.meta := meta;
    }

    /** The header is the one the stream's data holds. Open establishes
        it; the other methods are specified for any header. */
    predicate Valid() {
      ParseMeta(stream.data) == Success(meta)
    }

    /** `Shapefile(shp)`: seek to 0, skip 32 bytes, unpack `<i8d` from the
        next 68. Fails as ParseMeta does. */
    static method Open(s: Stream) returns (r: Result<Shapefile, ShpError>)
      modifies s
      ensures ParseMeta(s.data).Failure? ==> r == Failure(StructError)
      ensures ParseMeta(s.data).Success? ==>
        r.Success? && fresh(r.value) && r.value.stream == s && r.value.meta == ParseMeta(s.data).value
      ensures r.Success? ==> s.pos == FileHeaderSize
      ensures r.Success? ==> r.value.Valid()
      ensures s.pos == if |s.data| < FileHeaderSize then |s.data| else FileHeaderSize
    {
      var _ := s.Seek(0);
      var _, skipped := s.Read(SkippedSize);
      var _, h := s.Read(MetaSize);
      if |h| != MetaSize {
        return Failure(StructError);
      }
      var meta := Meta(I32LE(h[..4]), WordAt(h, 0), WordAt(h, 1), WordAt(h, 2), WordAt(h, 3),
                       WordAt(h, 4), WordAt(h, 5), WordAt(h, 6), WordAt(h, 7));
      var file := new Shapefile(s, meta);
      r := Success(file);
    }

    /** One pass of the `records()` loop body: read the 12-byte record
        header, then the content of a record not tagged 0, and parse it. */
    method NextShape(parser: Parser) returns (step: Step)
      modifies stream
      ensures step == ShpStep(stream.data, old(stream.pos), parser)
      ensures stream.pos == StepEnd(stream.data, old(stream.pos))
    {
      var _, header := stream.Read(RecordHeaderSize);
      if header == [] {
        return End;
      }
      if |header| < RecordHeaderSize {
        return Fail(StructError);
      }
      var contentLength := I32BE(header[4..8]);
      var shapeType := I32LE(header[8..12]);
      if shapeType == NullShapeType {
        return Yield(NullShape, stream.pos);
      }
      var n := 2 * (contentLength - 2);
      var ok, content := stream.Read(n);
      if !ok {
        return Fail(ReadLength(n));
      }
      var parsed := ApplyParser(parser, content);
      if parsed.Failure? {
        return Fail(parsed.error);
      }
      step := Yield(parsed.value, stream.pos);
    }

    /** `list(records())`: seek to byte 100, look up the parser once, then
        step until the data runs out or a step fails. */
    method Records() returns (sc: Scan<Shape, ShpError>)
      modifies stream
      ensures sc == ShpRecords(meta, stream.data)
      ensures stream.pos == ShpRecordsEnd(meta, stream.data)
    {
      var _ := stream.Seek(FileHeaderSize);
      var lookup := GetParseFunction(meta.shapeType);
      if lookup.Failure? {
        return Scan([], Some(lookup.error));
      }
      var parser := lookup.value;
      var items: seq<Shape> := [];
      while true
        invariant Prepend(items, ShpScan(stream.data, stream.pos, parser))
               == ShpScan(stream.data, FileHeaderSize, parser)
        invariant ShpScanEnd(stream.data, stream.pos, parser) == ShpScanEnd(stream.data, FileHeaderSize, parser)
        decreases if stream.pos <= |stream.data| then |stream.data| - stream.pos else 0
      {
        var step := NextShape(parser);
        match step
        case End =>
          return Scan(items, None);
        case Fail(e) =>
          return Scan(items, Some(e));
        case Yield(shape, next) =>
          items := items + [shape];
      }
    }

    /** Every `records()` call seeks back to byte 100, so iterating twice
        gives the same shapes and the same stopping error. */
    method RecordsTwice() returns (first: Scan<Shape, ShpError>, second: Scan<Shape, ShpError>)
      modifies stream
      ensures first == second == ShpRecords(meta, stream.data)
      ensures stream.pos == ShpRecordsEnd(meta, stream.data)
    {
      first := Records();
      second := Records();
    }

    /** `list(file)`: iteration is `records()`. */
    method Iterate() returns (sc: Scan<Shape, ShpError>)
      modifies stream
      ensures sc == ShpRecords(meta, stream.data)
      ensures stream.pos == ShpRecordsEnd(meta, stream.data)
    {
      sc := Records();
    }
  }
}
