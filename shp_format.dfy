/** The ESRI shapefile layout read by `Shapefile`: the 100-byte file header,
    the shape-type codes and their parser table, and the record framing
    that `records()` walks. Double-precision numbers are kept as their raw
    64-bit little-endian words. */
module ShpFormat {
  import opened Bytes
  import opened Wrappers

  const NullShapeType: int := 0
  const PointType: int := 1
  const PolyLineType: int := 3
  const PolygonType: int := 5
  const MultiPointType: int := 8
  const PointZType: int := 11
  const PolyLineZType: int := 13
  const PolygonZType: int := 15
  const MultiPointZType: int := 18
  const PointMType: int := 21
  const PolyLineMType: int := 23
  const PolygonMType: int := 25
  const MultiPointMType: int := 28
  const MultiPatchType: int := 31

  /** Every valid shape-type code. */
  const ShapeTypes: seq<int> :=
    [NullShapeType, PointType, PolyLineType, PolygonType, MultiPointType, PointZType,
     PolyLineZType, PolygonZType, MultiPointZType, PointMType, PolyLineMType,
     PolygonMType, MultiPointMType, MultiPatchType]

  /** The record parsers the reader has. */
  datatype Parser = NullParser | PointParser

  /** The parser for each supported shape type. */
  const ParseFunctions: map<int, Parser> := map[NullShapeType := NullParser, PointType := PointParser]

  const SkippedSize: nat := 32
  const MetaSize: nat := 68
  const FileHeaderSize: nat := 100
  const RecordHeaderSize: nat := 12
  const PointContentSize: nat := 16

  datatype ShpError =
    | StructError                  // a buffer too short for its struct format
    | NotImplemented(code: int)    // a valid shape type without a parser
    | InvalidShapeType(code: int)  // a code that is no shape type at all
    | ReadLength(count: int)       // read(count) with a count below -1 (ValueError)

  /** The errors a single record step can stop on. */
  predicate StepError(e: ShpError) {
    e == StructError || (e.ReadLength? && !ReadCountAllowed(e.count))
  }

  /** A decoded geometry; a point's coordinates are binary64 bit patterns. */
  datatype Shape = NullShape | Point(x: nat, y: nat)

  /** `ShapefileMeta`: the file's shape type and its bounding ranges. */
  datatype Meta = Meta(shapeType: int, xMin: nat, yMin: nat, xMax: nat, yMax: nat,
                       zMin: nat, zMax: nat, mMin: nat, mMax: nat)

  /** The 64-bit little-endian word `k` after the 4-byte shape type. */
  function WordAt(h: seq<byte>, k: nat): (w: nat)
    requires 12 + 8 * k <= |h|
    ensures w < Pow256(8)
  {
    LittleEndian(h[4 + 8 * k..12 + 8 * k])
  }

  /** `Shapefile.__init__`: seek to 0, skip 32 bytes, unpack `<i8d` from the
      next 68. */
  function ParseMeta(data: seq<byte>): (r: Result<Meta, ShpError>)
    ensures r.Success? <==> |data| >= FileHeaderSize
    ensures r.Failure? ==> r.error == StructError
    ensures r.Success? ==> r.value.shapeType == I32LE(data[32..36])
  {
    var skipped := ReadAt(data, 0, SkippedSize);
    var h := ReadAt(data, |skipped|, MetaSize);
    if |h| != MetaSize then Failure(StructError)
    else
      assert h[..4] == data[32..36];
      Success(Meta(I32LE(h[..4]), WordAt(h, 0), WordAt(h, 1), WordAt(h, 2), WordAt(h, 3),
                   WordAt(h, 4), WordAt(h, 5), WordAt(h, 6), WordAt(h, 7)))
  }

  /** The four bytes of a signed 32-bit integer, little-endian. */
  function I32LEBytes(i: int): (b: seq<byte>)
    requires -Two31 <= i < Two31
    ensures |b| == 4 && I32LE(b) == i
  {
    I32LERoundTrip(i);
    ToLittleEndian(Unsigned32(i), 4)
  }

  /** The four bytes of a signed 32-bit integer, big-endian. */
  function I32BEBytes(i: int): (b: seq<byte>)
    requires -Two31 <= i < Two31
    ensures |b| == 4 && I32BE(b) == i
  {
    I32BERoundTrip(i);
    ToBigEndian(Unsigned32(i), 4)
  }

  predicate ValidMeta(m: Meta) {
    -Two31 <= m.shapeType < Two31
    && m.xMin < Pow256(8) && m.yMin < Pow256(8) && m.xMax < Pow256(8) && m.yMax < Pow256(8)
    && m.zMin < Pow256(8) && m.zMax < Pow256(8) && m.mMin < Pow256(8) && m.mMax < Pow256(8)
  }

  /** The meta's eight bounds in file order. */
  function Bounds(m: Meta): (ws: seq<nat>)
    ensures |ws| == 8
  {
    [m.xMin, m.yMin, m.xMax, m.yMax, m.zMin, m.zMax, m.mMin, m.mMax]
  }

  /** Words as consecutive 64-bit little-endian groups. */
  function EncodeWords(ws: seq<nat>): (b: seq<byte>)
    requires forall i :: 0 <= i < |ws| ==> ws[i] < Pow256(8)
    ensures |b| == 8 * |ws|
  {
    if ws == [] then [] else ToLittleEndian(ws[0], 8) + EncodeWords(ws[1..])
  }

  lemma {:induction false} EncodeWordsAt(ws: seq<nat>, k: nat)
    requires forall i :: 0 <= i < |ws| ==> ws[i] < Pow256(8)
    requires k < |ws|
    ensures EncodeWords(ws)[8 * k..8 * k + 8] == ToLittleEndian(ws[k], 8)
  {
    if k > 0 {
      EncodeWordsAt(ws[1..], k - 1);
      assert EncodeWords(ws)[8 * k..8 * k + 8] == EncodeWords(ws[1..])[8 * (k - 1)..8 * (k - 1) + 8];
    }
  }

  /** A 100-byte file header: 32 bytes the reader skips, then the meta. */
  function EncodeMeta(skipped: seq<byte>, m: Meta): (h: seq<byte>)
    requires |skipped| == SkippedSize && ValidMeta(m)
    ensures |h| == FileHeaderSize
  {
    skipped + I32LEBytes(m.shapeType) + EncodeWords(Bounds(m))
  }

  lemma WordOfEncoding(h: seq<byte>, ws: seq<nat>, k: nat)
    requires forall i :: 0 <= i < |ws| ==> ws[i] < Pow256(8)
    requires k < |ws| && |h| == 4 + 8 * |ws| && h[4..] == EncodeWords(ws)
    ensures WordAt(h, k) == ws[k]
  {
    EncodeWordsAt(ws, k);
    assert h[4 + 8 * k..12 + 8 * k] == h[4..][8 * k..8 * k + 8];
    LittleEndianOfToLittleEndian(ws[k], 8);
  }

  /** The header written by EncodeMeta reads back as the same meta, whatever
      follows it. */
  lemma MetaRoundTrip(skipped: seq<byte>, m: Meta, rest: seq<byte>)
    requires |skipped| == SkippedSize && ValidMeta(m)
    ensures ParseMeta(EncodeMeta(skipped, m) + rest) == Success(m)
  {
    var data := EncodeMeta(skipped, m) + rest;
    var h := data[32..100];
    var ws := Bounds(m);
    assert ReadAt(data, |ReadAt(data, 0, SkippedSize)|, MetaSize) == h;
    assert h == I32LEBytes(m.shapeType) + EncodeWords(ws);
    assert h[..4] == I32LEBytes(m.shapeType);
    assert h[4..] == EncodeWords(ws);
    WordOfEncoding(h, ws, 0);
    WordOfEncoding(h, ws, 1);
    WordOfEncoding(h, ws, 2);
    WordOfEncoding(h, ws, 3);
    WordOfEncoding(h, ws, 4);
    WordOfEncoding(h, ws, 5);
    WordOfEncoding(h, ws, 6);
    WordOfEncoding(h, ws, 7);
  }

  /** `get_parse_function`: the parser for the file's shape type, or
      NotImplementedError for a known type without one, or ValueError. */
  function GetParseFunction(shapeType: int): (r: Result<Parser, ShpError>)
    ensures r == Success(NullParser) <==> shapeType == 0
    ensures r == Success(PointParser) <==> shapeType == 1
    ensures r == Failure(NotImplemented(shapeType)) <==>
      shapeType in {3, 5, 8, 11, 13, 15, 18, 21, 23, 25, 28, 31}
    ensures r == Failure(InvalidShapeType(shapeType)) <==>
      !(shapeType in {0, 1, 3, 5, 8, 11, 13, 15, 18, 21, 23, 25, 28, 31})
  {
    if shapeType in ParseFunctions then Success(ParseFunctions[shapeType])
    else if shapeType in ShapeTypes then Failure(NotImplemented(shapeType))
    else Failure(InvalidShapeType(shapeType))
  }

  /** `parse_point_record`: `unpack_from('<2d', content)`, so at least 16
      bytes, of which the first 16 are x then y. */
  function ParsePointRecord(content: seq<byte>): (r: Result<Shape, ShpError>)
    ensures r.Success? <==> |content| >= PointContentSize
    ensures r.Failure? ==> r.error == StructError
  {
    if |content| < PointContentSize then Failure(StructError)
    else Success(Point(LittleEndian(content[..8]), LittleEndian(content[8..16])))
  }

  /** Sixteen bytes holding x then y decode to that point; trailing bytes are
      ignored. */
  lemma PointRoundTrip(x: nat, y: nat, extra: seq<byte>)
    requires x < Pow256(8) && y < Pow256(8)
    ensures ParsePointRecord(ToLittleEndian(x, 8) + ToLittleEndian(y, 8) + extra) == Success(Point(x, y))
  {
    var c := ToLittleEndian(x, 8) + ToLittleEndian(y, 8) + extra;
    assert c[..8] == ToLittleEndian(x, 8);
    assert c[8..16] == ToLittleEndian(y, 8);
    LittleEndianOfToLittleEndian(x, 8);
    LittleEndianOfToLittleEndian(y, 8);
  }

  /** Runs a record parser: `parse_null_record` ignores its content. */
  function ApplyParser(parser: Parser, content: seq<byte>): (r: Result<Shape, ShpError>)
    ensures parser == NullParser ==> r == Success(NullShape)
    ensures parser == PointParser ==> r == ParsePointRecord(content)
  {
    match parser
    case NullParser => Success(NullShape)
    case PointParser => ParsePointRecord(content)
  }

  /** One step of the `records()` loop. */
  datatype Step = Yield(shape: Shape, next: nat) | End | Fail(error: ShpError)

  /** Where the stream stands after one pass of the `records()` loop body
      from `p`, whatever the pass gives: after the header bytes it got, and
      for a record not tagged 0 whose content count is allowed, after the
      content bytes it got. The parser plays no part. */
  function StepEnd(data: seq<byte>, p: nat): (e: nat)
    ensures p <= e
    ensures p <= |data| ==> e <= |data|
    ensures p >= |data| ==> e == p
  {
    var header := ReadAt(data, p, RecordHeaderSize);
    if |header| < RecordHeaderSize then p + |header|
    else
      var contentLength := I32BE(header[4..8]);
      var shapeType := I32LE(header[8..12]);
      var q := p + RecordHeaderSize;
      var n := 2 * (contentLength - 2);
      if shapeType == NullShapeType || !ReadCountAllowed(n) then q
      else q + |ReadAt(data, q, n)|
  }

  /** One pass of the `records()` loop body at position `p`: read the 12-byte
      record header (nothing left is the clean end), then either yield a
      null shape for a record tagged 0 or read `2 * (content_length - 2)`
      more bytes (a count below -1 is refused) and hand them to the file's
      parser. A yielded step resumes where the stream was left. */
  function ShpStep(data: seq<byte>, p: nat, parser: Parser): (s: Step)
    ensures s.End? <==> p >= |data|
    ensures s.Yield? ==> p + RecordHeaderSize <= s.next <= |data|
    ensures s.Yield? ==> s.next == StepEnd(data, p)
    ensures s.Fail? ==> StepError(s.error)
    ensures s.Yield? && parser == NullParser ==> s.shape == NullShape
  {
    var header := ReadAt(data, p, RecordHeaderSize);
    if header == [] then End
    else if |header| < RecordHeaderSize then Fail(StructError)
    else
      var contentLength := I32BE(header[4..8]);
      var shapeType := I32LE(header[8..12]);
      var q := p + RecordHeaderSize;
      if shapeType == NullShapeType then Yield(NullShape, q)
      else
        var n := 2 * (contentLength - 2);
        if !ReadCountAllowed(n) then Fail(ReadLength(n))
        else
          var content := ReadAt(data, q, n);
          match ApplyParser(parser, content)
          case Failure(e) => Fail(e)
          case Success(shape) => Yield(shape, q + |content|)
  }

  /** The records yielded from position `p` to the end of the data, and the
      error that stopped them early, if any. */
  function ShpScan(data: seq<byte>, p: nat, parser: Parser): (sc: Scan<Shape, ShpError>)
    ensures p <= |data| ==> 12 * |sc.items| <= |data| - p
    ensures p >= |data| ==> sc == Scan([], None)
    ensures sc.stop.Some? ==> StepError(sc.stop.value)
    ensures parser == NullParser ==> forall i :: 0 <= i < |sc.items| ==> sc.items[i] == NullShape
    decreases if p <= |data| then |data| - p else 0
  {
    match ShpStep(data, p, parser)
    case End => Scan([], None)
    case Fail(e) => Scan([], Some(e))
    case Yield(shape, next) => Prepend([shape], ShpScan(data, next, parser))
  }

  /** Where the stream stands once the scan from `p` stops: at the end of
      the data after a clean stop (or at `p` if it was already past the
      end), and otherwise where the failing step left it. */
  function ShpScanEnd(data: seq<byte>, p: nat, parser: Parser): (e: nat)
    ensures p <= e
    ensures p <= |data| ==> e <= |data|
    ensures ShpScan(data, p, parser).stop.None? ==> e == if p <= |data| then |data| else p
    decreases if p <= |data| then |data| - p else 0
  {
    match ShpStep(data, p, parser)
    case End => p
    case Fail(_) => StepEnd(data, p)
    case Yield(_, next) => ShpScanEnd(data, next, parser)
  }

  /** `list(records())`: seek to byte 100, look up the parser for the file's
      shape type (failing before any record is read), then scan. */
  function ShpRecords(meta: Meta, data: seq<byte>): (sc: Scan<Shape, ShpError>)
    ensures GetParseFunction(meta.shapeType).Failure? ==>
      sc == Scan([], Some(GetParseFunction(meta.shapeType).error))
    ensures GetParseFunction(meta.shapeType).Success? ==>
      sc == ShpScan(data, FileHeaderSize, GetParseFunction(meta.shapeType).value)
  {
    match GetParseFunction(meta.shapeType)
    case Failure(e) => Scan([], Some(e))
    case Success(parser) => ShpScan(data, FileHeaderSize, parser)
  }

  /** Where `list(records())` leaves the stream: at byte 100 when the
      shape type has no parser, and otherwise where the scan stops. */
  function ShpRecordsEnd(meta: Meta, data: seq<byte>): (e: nat)
    ensures FileHeaderSize <= e
    ensures ShpRecords(meta, data).stop.None? ==> e == if FileHeaderSize <= |data| then |data| else FileHeaderSize
  {
    match GetParseFunction(meta.shapeType)
    case Failure(_) => FileHeaderSize
    case Success(parser) => ShpScanEnd(data, FileHeaderSize, parser)
  }

  /** A 12-byte record header: record number and content length big-endian,
      then the record's own shape-type tag little-endian. */
  function RecordHeader(number: nat, contentLength: int, tag: int): (h: seq<byte>)
    requires number < Two31 && -Two31 <= contentLength < Two31 && -Two31 <= tag < Two31
    ensures |h| == RecordHeaderSize
    ensures I32BE(h[4..8]) == contentLength && I32LE(h[8..12]) == tag
  {
    var h := I32BEBytes(number) + I32BEBytes(contentLength) + I32LEBytes(tag);
    assert h[4..8] == I32BEBytes(contentLength);
    assert h[8..12] == I32LEBytes(tag);
    h
  }

  /** A point record as written: its header, then x and y. A well-formed one
      carries content length 10 and tag 1. */
  function PointRecord(number: nat, contentLength: int, tag: int, x: nat, y: nat): (b: seq<byte>)
    requires number < Two31 && -Two31 <= contentLength < Two31 && -Two31 <= tag < Two31
    requires x < Pow256(8) && y < Pow256(8)
    ensures |b| == RecordHeaderSize + PointContentSize
  {
    RecordHeader(number, contentLength, tag) + ToLittleEndian(x, 8) + ToLittleEndian(y, 8)
  }

  /** Reading inside the middle part of some data gives that part's bytes. */
  lemma ReadInside(pre: seq<byte>, r: seq<byte>, post: seq<byte>, i: nat, n: nat)
    requires i + n <= |r|
    ensures ReadAt(pre + r + post, |pre| + i, n) == r[i..i + n]
  {
    var data := pre + r + post;
    if |pre| + i < |data| {
      assert data[|pre| + i..|pre| + i + n] == r[i..i + n];
    }
  }

  predicate Encodable(s: Shape) {
    s.Point? ==> s.x < Pow256(8) && s.y < Pow256(8)
  }

  /** A well-formed record for a shape: a null record is its 12-byte header
      with content length 2. */
  function EncodeRecord(number: nat, s: Shape): (b: seq<byte>)
    requires number < Two31 && Encodable(s)
    ensures |b| == if s.Point? then RecordHeaderSize + PointContentSize else RecordHeaderSize
  {
    match s
    case NullShape => RecordHeader(number, 2, NullShapeType)
    case Point(x, y) => PointRecord(number, 10, PointType, x, y)
  }

  /** The records for `shapes`, numbered from `first` on. */
  function RecordList(shapes: seq<Shape>, first: nat): (rs: seq<seq<byte>>)
    requires first + |shapes| <= Two31
    requires forall i :: 0 <= i < |shapes| ==> Encodable(shapes[i])
    ensures |rs| == |shapes|
  {
    seq(|shapes|, k requires 0 <= k < |shapes| => EncodeRecord(first + k, shapes[k]))
  }

  /** Record `k` of the list is shape `k` encoded with record number
      `first + k`. */
  lemma RecordListAt(shapes: seq<Shape>, first: nat, k: nat)
    requires first + |shapes| <= Two31
    requires forall i :: 0 <= i < |shapes| ==> Encodable(shapes[i])
    requires k < |shapes|
    ensures RecordList(shapes, first)[k] == EncodeRecord(first + k, shapes[k])
  {
  }

  /** Byte strings laid end to end. */
  function Concat(rs: seq<seq<byte>>): seq<byte> {
    if rs == [] then [] else rs[0] + Concat(rs[1..])
  }

  lemma {:induction false} ConcatSplit(rs: seq<seq<byte>>, k: nat)
    requires k <= |rs|
    ensures Concat(rs) == Concat(rs[..k]) + Concat(rs[k..])
    decreases k
  {
    if k == 0 {
      assert rs[..0] == [] && rs[0..] == rs;
    } else {
      ConcatSplit(rs[1..], k - 1);
      assert rs[1..][..k - 1] == rs[..k][1..] && rs[1..][k - 1..] == rs[k..];
    }
  }

  /** The bytes of a non-empty list of records are its first record's
      bytes, then the rest's. Stated apart, with an empty body, so that the
      proofs that use it unfold Concat only here. */
  lemma ConcatCons(rs: seq<seq<byte>>)
    requires rs != []
    ensures Concat(rs) == rs[0] + Concat(rs[1..])
  {
  }

  /** Item `k` sits between the items before it and the items after it. */
  lemma ConcatAt(rs: seq<seq<byte>>, k: nat)
    requires k < |rs|
    ensures Concat(rs) == Concat(rs[..k]) + rs[k] + Concat(rs[k + 1..])
  {
    ConcatSplit(rs, k);
    var tail := rs[k..];
    ConcatCons(tail);
    assert tail[0] == rs[k] && tail[1..] == rs[k + 1..];
  }

  /** The items up to and including `k` are the items before it, then it. */
  lemma ConcatPrefix(rs: seq<seq<byte>>, k: nat)
    requires k < |rs|
    ensures Concat(rs[..k + 1]) == Concat(rs[..k]) + rs[k]
  {
    var p := rs[..k + 1];
    ConcatSplit(p, k);
    assert p[..k] == rs[..k];
    var last := p[k..];
    assert last == [rs[k]];
    ConcatCons(last);
    assert last[1..] == [];
  }

  /** A file body of well-formed records. */
  function EncodeRecords(shapes: seq<Shape>, first: nat): seq<byte>
    requires first + |shapes| <= Two31
    requires forall i :: 0 <= i < |shapes| ==> Encodable(shapes[i])
  {
    Concat(RecordList(shapes, first))
  }

  /** Any record whose own tag is not 0 is parsed by the file's parser: a
      point record tagged, say, as a polygon still reads as a point, and the
      next record starts `2 * (content_length - 2)` bytes after its header. */
  lemma TaggedPointStep(pre: seq<byte>, number: nat, tag: int, x: nat, y: nat, post: seq<byte>)
    requires number < Two31 && -Two31 <= tag < Two31 && tag != NullShapeType
    requires x < Pow256(8) && y < Pow256(8)
    ensures ShpStep(pre + PointRecord(number, 10, tag, x, y) + post, |pre|, PointParser)
         == Yield(Point(x, y), |pre| + RecordHeaderSize + PointContentSize)
  {
    var r := PointRecord(number, 10, tag, x, y);
    ReadInside(pre, r, post, 0, RecordHeaderSize);
    assert r[0..12] == RecordHeader(number, 10, tag);
    ReadInside(pre, r, post, 12, 16);
    assert r[12..28] == ToLittleEndian(x, 8) + ToLittleEndian(y, 8) + [];
    PointRoundTrip(x, y, []);
  }

  /** In a file of null type every record reads as a null shape: a record
      tagged as a point has its content skipped, not decoded. */
  lemma NullFileSkipsContent(pre: seq<byte>, number: nat, x: nat, y: nat, post: seq<byte>)
    requires number < Two31 && x < Pow256(8) && y < Pow256(8)
    ensures ShpStep(pre + PointRecord(number, 10, PointType, x, y) + post, |pre|, NullParser)
         == Yield(NullShape, |pre| + RecordHeaderSize + PointContentSize)
  {
    var r := PointRecord(number, 10, PointType, x, y);
    ReadInside(pre, r, post, 0, RecordHeaderSize);
    assert r[0..12] == RecordHeader(number, 10, PointType);
  }

  /** A record tagged 0 is yielded as a null shape after its 12-byte header
      alone, under either parser. */
  lemma NullRecordStep(pre: seq<byte>, number: nat, post: seq<byte>, parser: Parser)
    requires number < Two31
    ensures ShpStep(pre + EncodeRecord(number, NullShape) + post, |pre|, parser)
         == Yield(NullShape, |pre| + RecordHeaderSize)
  {
    var r := EncodeRecord(number, NullShape);
    ReadInside(pre, r, post, 0, RecordHeaderSize);
    assert r[0..12] == r;
  }

  /** A well-formed record reads back as its shape, provided the file's
      parser is the point parser whenever the shape is a point. */
  lemma RecordStep(pre: seq<byte>, number: nat, s: Shape, post: seq<byte>, parser: Parser)
    requires number < Two31 && Encodable(s)
    requires s.Point? ==> parser == PointParser
    ensures ShpStep(pre + EncodeRecord(number, s) + post, |pre|, parser)
         == Yield(s, |pre| + |EncodeRecord(number, s)|)
  {
    match s
    case NullShape => NullRecordStep(pre, number, post, parser);
    case Point(x, y) => TaggedPointStep(pre, number, PointType, x, y, post);
  }

  /** A pass that yields a shape puts it before the shapes of the loop from
      where the pass ended. Stated apart, with an empty body, so that the
      proofs that use it unfold ShpScan only here. */
  lemma ScanAfterYield(data: seq<byte>, p: nat, parser: Parser)
    requires ShpStep(data, p, parser).Yield?
    ensures ShpScan(data, p, parser)
         == Prepend([ShpStep(data, p, parser).shape], ShpScan(data, ShpStep(data, p, parser).next, parser))
  {
  }

  /** Records laid end to end: a scan from the first start yields each
      record's shape in turn when the record at each start yields its shape
      and ends at the next start, the last start being the end of the data. */
  lemma {:induction false} ScanOfSteps(data: seq<byte>, starts: seq<nat>, shapes: seq<Shape>, parser: Parser)
    requires |starts| == |shapes| + 1 && starts[|shapes|] == |data|
    requires forall k :: 0 <= k < |shapes| ==> ShpStep(data, starts[k], parser) == Yield(shapes[k], starts[k + 1])
    ensures ShpScan(data, starts[0], parser) == Scan(shapes, None)
    decreases |shapes|
  {
    if shapes != [] {
      assert forall k :: 0 <= k < |shapes| - 1 ==> starts[1..][k] == starts[k + 1] && shapes[1..][k] == shapes[k + 1];
      ScanOfSteps(data, starts[1..], shapes[1..], parser);
      ScanCons(data, starts[0], starts[1], parser, shapes[0], shapes[1..]);
      assert [shapes[0]] + shapes[1..] == shapes;
    }
  }

  /** `r` is one record that reads back as `s` wherever it sits in the data,
      and the next record starts right after it. */
  ghost predicate ReadsBackAs(r: seq<byte>, s: Shape, parser: Parser) {
    forall data: seq<byte>, p: nat {:trigger ShpStep(data, p, parser)} ::
      p + |r| <= |data| && data[p..p + |r|] == r ==> ShpStep(data, p, parser) == Yield(s, p + |r|)
  }

  /** A well-formed record reads back as its shape. */
  lemma EncodedRecordReadsBack(r: seq<byte>, number: nat, s: Shape, parser: Parser)
    requires number < Two31 && Encodable(s) && r == EncodeRecord(number, s)
    requires s.Point? ==> parser == PointParser
    ensures ReadsBackAs(r, s, parser)
  {
    forall data: seq<byte>, p: nat | p + |r| <= |data| && data[p..p + |r|] == r
      ensures ShpStep(data, p, parser) == Yield(s, p + |r|)
    {
      SplitAround(data, p, r);
      RecordStep(data[..p], number, s, data[p + |r|..], parser);
    }
  }

  /** Record `k` of a list of records sits after the records before it. */
  lemma RecordSlice(pre: seq<byte>, rs: seq<seq<byte>>, k: nat)
    requires k < |rs|
    ensures |pre + Concat(rs[..k + 1])| == |pre + Concat(rs[..k])| + |rs[k]| <= |pre + Concat(rs)|
    ensures (pre + Concat(rs))[|pre + Concat(rs[..k])|..|pre + Concat(rs[..k])| + |rs[k]|] == rs[k]
  {
    var before := pre + Concat(rs[..k]);
    var after := Concat(rs[k + 1..]);
    ConcatAt(rs, k);
    ConcatPrefix(rs, k);
    assert pre + Concat(rs) == before + rs[k] + after;
  }

  /** Record `k` of a list of records that read back sits after the records
      before it and reads back as shape `k`. */
  lemma RecordAtIndex(pre: seq<byte>, rs: seq<seq<byte>>, shapes: seq<Shape>, parser: Parser, k: nat)
    requires k < |rs| == |shapes|
    requires ReadsBackAs(rs[k], shapes[k], parser)
    ensures ShpStep(pre + Concat(rs), |pre + Concat(rs[..k])|, parser)
         == Yield(shapes[k], |pre + Concat(rs[..k + 1])|)
  {
    RecordSlice(pre, rs, k);
  }

  /** Records that each read back as their shape, laid end to end, read back
      as those shapes, and the scan stops cleanly at the end of the data. */
  lemma ConcatReadsBack(pre: seq<byte>, rs: seq<seq<byte>>, shapes: seq<Shape>, parser: Parser)
    requires |rs| == |shapes|
    requires forall k :: 0 <= k < |rs| ==> ReadsBackAs(rs[k], shapes[k], parser)
    ensures ShpScan(pre + Concat(rs), |pre|, parser) == Scan(shapes, None)
  {
    var data := pre + Concat(rs);
    var starts := seq(|rs| + 1, k requires 0 <= k <= |rs| => |pre + Concat(rs[..k])|);
    forall k | 0 <= k < |rs|
      ensures ShpStep(data, starts[k], parser) == Yield(shapes[k], starts[k + 1])
    {
      RecordAtIndex(pre, rs, shapes, parser, k);
    }
    assert rs[..0] == [] && rs[..|rs|] == rs;
    ScanOfSteps(data, starts, shapes, parser);
  }

  /** Reading well-formed records gives back exactly their shapes, in file
      order, and stops cleanly at the end of the data. */
  lemma ScanRoundTrip(pre: seq<byte>, shapes: seq<Shape>, first: nat, parser: Parser)
    requires first + |shapes| <= Two31
    requires forall i :: 0 <= i < |shapes| ==> Encodable(shapes[i])
    requires forall i :: 0 <= i < |shapes| && shapes[i].Point? ==> parser == PointParser
    ensures ShpScan(pre + EncodeRecords(shapes, first), |pre|, parser) == Scan(shapes, None)
  {
    RecordListReadsBack(shapes, first, parser);
    ConcatReadsBack(pre, RecordList(shapes, first), shapes, parser);
  }

  /** Every record of a list of well-formed records reads back as its shape. */
  lemma RecordListReadsBack(shapes: seq<Shape>, first: nat, parser: Parser)
    requires first + |shapes| <= Two31
    requires forall i :: 0 <= i < |shapes| ==> Encodable(shapes[i])
    requires forall i :: 0 <= i < |shapes| && shapes[i].Point? ==> parser == PointParser
    ensures forall k :: 0 <= k < |shapes| ==> ReadsBackAs(RecordList(shapes, first)[k], shapes[k], parser)
  {
    forall k | 0 <= k < |shapes|
      ensures ReadsBackAs(RecordList(shapes, first)[k], shapes[k], parser)
    {
      RecordListAt(shapes, first, k);
      EncodedRecordReadsBack(RecordList(shapes, first)[k], first + k, shapes[k], parser);
    }
  }

  /** A record that yields `s`, followed by records that read back cleanly,
      reads back with `s` in front. */
  lemma ScanCons(data: seq<byte>, p: nat, next: nat, parser: Parser, s: Shape, tail: seq<Shape>)
    requires ShpStep(data, p, parser) == Yield(s, next)
    requires ShpScan(data, next, parser) == Scan(tail, None)
    ensures ShpScan(data, p, parser) == Scan([s] + tail, None)
  {
    ScanAfterYield(data, p, parser);
  }

  /** A whole shapefile of a supported type reads back: the header gives the
      meta, and iteration gives the shapes, including any null placeholders
      in a point file. */
  lemma ShapefileRoundTrip(skipped: seq<byte>, meta: Meta, shapes: seq<Shape>)
    requires |skipped| == SkippedSize && ValidMeta(meta)
    requires meta.shapeType == NullShapeType || meta.shapeType == PointType
    requires |shapes| < Two31
    requires forall i :: 0 <= i < |shapes| ==> Encodable(shapes[i])
    requires forall i :: 0 <= i < |shapes| && shapes[i].Point? ==> meta.shapeType == PointType
    ensures ParseMeta(EncodeMeta(skipped, meta) + EncodeRecords(shapes, 1)) == Success(meta)
    ensures ShpRecords(meta, EncodeMeta(skipped, meta) + EncodeRecords(shapes, 1)) == Scan(shapes, None)
  {
    MetaRoundTrip(skipped, meta, EncodeRecords(shapes, 1));
    ScanRoundTrip(EncodeMeta(skipped, meta), shapes, 1, GetParseFunction(meta.shapeType).value);
  }

  /** K null records yield K null shapes under either parser. */
  lemma NullRecordsYieldNulls(pre: seq<byte>, k: nat, parser: Parser)
    requires k < Two31
    ensures ShpScan(pre + EncodeRecords(seq(k, _ => NullShape), 1), |pre|, parser)
         == Scan(seq(k, _ => NullShape), None)
  {
    ScanRoundTrip(pre, seq(k, _ => NullShape), 1, parser);
  }

  /** A file of a valid but unsupported type fails before its first record,
      even when every record is a null placeholder. */
  lemma UnsupportedTypeReadsNothing(meta: Meta, data: seq<byte>)
    requires meta.shapeType in ShapeTypes && meta.shapeType !in ParseFunctions
    ensures ShpRecords(meta, data) == Scan([], Some(NotImplemented(meta.shapeType)))
  {
  }

  /** A point record cut short anywhere is a struct error, whether the cut
      falls in its header or its content. */
  lemma TruncatedPointFails(pre: seq<byte>, number: nat, x: nat, y: nat, k: nat)
    requires number < Two31 && x < Pow256(8) && y < Pow256(8)
    requires 0 < k < RecordHeaderSize + PointContentSize
    ensures ShpStep(pre + PointRecord(number, 10, PointType, x, y)[..k], |pre|, PointParser)
         == Fail(StructError)
  {
    var r := PointRecord(number, 10, PointType, x, y);
    var data := pre + r[..k];
    assert data == pre + r[..k] + [];
    if k >= RecordHeaderSize {
      ReadInside(pre, r[..k], [], 0, RecordHeaderSize);
      assert r[..k][0..12] == RecordHeader(number, 10, PointType);
      assert |ReadAt(data, |pre| + 12, 16)| == k - 12;
    } else {
      assert |ReadAt(data, |pre|, RecordHeaderSize)| == k;
    }
  }

  /** A record not tagged 0 whose content length is below 2 asks for a byte
      count below -1, which the stream refuses: the step fails with that
      count under either parser, whatever follows the header. */
  lemma ShortContentLengthFails(pre: seq<byte>, number: nat, contentLength: int, tag: int,
                                post: seq<byte>, parser: Parser)
    requires number < Two31 && -Two31 <= contentLength < 2
    requires -Two31 <= tag < Two31 && tag != NullShapeType
    ensures ShpStep(pre + RecordHeader(number, contentLength, tag) + post, |pre|, parser)
         == Fail(ReadLength(2 * (contentLength - 2)))
  {
    var h := RecordHeader(number, contentLength, tag);
    ReadInside(pre, h, post, 0, RecordHeaderSize);
    assert h[0..12] == h;
  }
}
