/** The null-tolerant value parsers of the dBase III reader: each maps the
    raw bytes of one field of one record to a value, or to None when the
    bytes do not hold a value of the field's type. Only `date()` can raise,
    on a day part too large for a C int, and that case is not modelled. */
module DbfValues {
  import opened Bytes
  import opened Wrappers

  // ---------------------------------------------------------------------
  // Character classes and stripping

  /** The bytes `bytes.strip()`, `int()` and `float()` treat as
      whitespace: space, tab, line feed, vertical tab, form feed and
      carriage return. */
  predicate IsAsciiSpace(b: byte) {
    b == 32 || 9 <= b <= 13
  }

  /** The ASCII characters `str.strip()` removes: the six above and the
      four separators 0x1C-0x1F. */
  predicate IsStrSpace(b: byte) {
    IsAsciiSpace(b) || 28 <= b <= 31
  }

  predicate IsDigit(b: byte) {
    48 <= b <= 57
  }

  predicate AllDigits(s: seq<byte>) {
    forall i :: 0 <= i < |s| ==> IsDigit(s[i])
  }

  predicate HasDigit(s: seq<byte>) {
    exists i :: 0 <= i < |s| && IsDigit(s[i])
  }

  const Plus: byte := 43
  const Minus: byte := 45
  const Dot: byte := 46
  const Space: byte := 32

  predicate IsSign(b: byte) {
    b == Plus || b == Minus
  }

  /** `k` copies of the byte `b`. */
  function Repeat(b: byte, k: nat): (s: seq<byte>)
    ensures |s| == k && forall i :: 0 <= i < k ==> s[i] == b
  {
    seq(k, _ => b)
  }

  /** The number of leading bytes of `v` that `isSpace` accepts. */
  function SpanLeft(v: seq<byte>, isSpace: byte -> bool): (k: nat)
    ensures k <= |v|
    ensures forall i :: 0 <= i < k ==> isSpace(v[i])
    ensures k < |v| ==> !isSpace(v[k])
  {
    if v == [] || !isSpace(v[0]) then 0 else 1 + SpanLeft(v[1..], isSpace)
  }

  /** The number of trailing bytes of `v` that `isSpace` accepts. */
  function SpanRight(v: seq<byte>, isSpace: byte -> bool): (k: nat)
    ensures k <= |v|
    ensures forall i :: |v| - k <= i < |v| ==> isSpace(v[i])
    ensures k < |v| ==> !isSpace(v[|v| - 1 - k])
  {
    if v == [] || !isSpace(v[|v| - 1]) then 0 else 1 + SpanRight(v[..|v| - 1], isSpace)
  }

  /** Every byte of `s` is whitespace. */
  predicate AllSpace(s: seq<byte>, isSpace: byte -> bool) {
    forall i :: 0 <= i < |s| ==> isSpace(s[i])
  }

  /** `v` without its leading and trailing whitespace: the bytes between
      the leading run and a trailing run of whitespace. */
  function Strip(v: seq<byte>, isSpace: byte -> bool): (r: seq<byte>)
    ensures r == [] || (!isSpace(r[0]) && !isSpace(r[|r| - 1]))
    ensures |r| <= |v| - SpanLeft(v, isSpace)
    ensures r == v[SpanLeft(v, isSpace)..SpanLeft(v, isSpace) + |r|]
    ensures forall i :: SpanLeft(v, isSpace) + |r| <= i < |v| ==> isSpace(v[i])
    ensures AllSpace(v, isSpace) <==> r == []
  {
    var t := v[SpanLeft(v, isSpace)..];
    var r := t[..|t| - SpanRight(t, isSpace)];
    assert r == [] ==> SpanLeft(v, isSpace) == |v| by {
      if SpanLeft(v, isSpace) < |v| {
        assert t[0] == v[SpanLeft(v, isSpace)];
      }
    }
    forall i | SpanLeft(v, isSpace) + |r| <= i < |v|
      ensures isSpace(v[i])
    {
      assert v[i] == t[i - SpanLeft(v, isSpace)];
    }
    r
  }

  /** Every value is its stripped form between two runs of whitespace. */
  lemma StripSplits(v: seq<byte>, isSpace: byte -> bool)
    ensures var k, r := SpanLeft(v, isSpace), Strip(v, isSpace);
      v == v[..k] + r + v[k + |r|..] && AllSpace(v[..k], isSpace) && AllSpace(v[k + |r|..], isSpace)
  {
    var k, r := SpanLeft(v, isSpace), Strip(v, isSpace);
    assert v == v[..k] + r + v[k + |r|..] by {
      SplitAround(v, k, r);
    }
    assert AllSpace(v[..k], isSpace) by {
      var pre := v[..k];
      forall i | 0 <= i < |pre| ensures isSpace(pre[i]) {
        assert pre[i] == v[i];
      }
    }
    assert AllSpace(v[k + |r|..], isSpace) by {
      var post := v[k + |r|..];
      forall i | 0 <= i < |post| ensures isSpace(post[i]) {
        assert post[i] == v[k + |r| + i];
      }
    }
  }

  lemma {:induction false} SpanLeftPadded(pre: seq<byte>, s: seq<byte>, isSpace: byte -> bool)
    requires AllSpace(pre, isSpace)
    requires s == [] || !isSpace(s[0])
    ensures SpanLeft(pre + s, isSpace) == |pre|
    decreases |pre|
  {
    if pre != [] {
      assert (pre + s)[1..] == pre[1..] + s;
      SpanLeftPadded(pre[1..], s, isSpace);
    } else {
      assert pre + s == s;
    }
  }

  lemma {:induction false} SpanRightPadded(s: seq<byte>, post: seq<byte>, isSpace: byte -> bool)
    requires AllSpace(post, isSpace)
    requires s == [] || !isSpace(s[|s| - 1])
    ensures SpanRight(s + post, isSpace) == |post|
    decreases |post|
  {
    if post != [] {
      assert (s + post)[..|s| + |post| - 1] == s + post[..|post| - 1];
      SpanRightPadded(s, post[..|post| - 1], isSpace);
    } else {
      assert s + post == s;
    }
  }

  /** Stripping removes exactly the whitespace around a value that neither
      starts nor ends with whitespace, whatever whitespace bytes pad it. */
  lemma StripPadded(pre: seq<byte>, s: seq<byte>, post: seq<byte>, isSpace: byte -> bool)
    requires AllSpace(pre, isSpace) && AllSpace(post, isSpace)
    requires s == [] || (!isSpace(s[0]) && !isSpace(s[|s| - 1]))
    ensures Strip(pre + s + post, isSpace) == s
  {
    var v := pre + s + post;
    if s == [] {
      assert AllSpace(v, isSpace) by {
        forall i | 0 <= i < |v| ensures isSpace(v[i]) {
          if i < |pre| { assert v[i] == pre[i]; } else { assert v[i] == post[i - |pre|]; }
        }
      }
    } else {
      assert v == pre + (s + post);
      SpanLeftPadded(pre, s + post, isSpace);
      assert v[|pre|..] == s + post;
      SpanRightPadded(s, post, isSpace);
    }
  }

  /** A value that neither starts nor ends with whitespace is its own
      stripped form. */
  lemma StripUnpadded(s: seq<byte>, isSpace: byte -> bool)
    requires s != [] && !isSpace(s[0]) && !isSpace(s[|s| - 1])
    ensures Strip(s, isSpace) == s
  {
    assert SpanLeft(s, isSpace) == 0;
    assert s[0..] == s;
    assert SpanRight(s, isSpace) == 0;
  }

  // ---------------------------------------------------------------------
  // Decimal digits

  function Pow10(k: nat): (p: nat)
    ensures p >= 1
  {
    if k == 0 then 1 else 10 * Pow10(k - 1)
  }

  /** The value of a string of decimal digits (leading zeros allowed). */
  function DigitsValue(s: seq<byte>): (n: nat)
    requires AllDigits(s)
    ensures n < Pow10(|s|)
  {
    if s == [] then 0 else DigitsValue(s[..|s| - 1]) * 10 + (s[|s| - 1] - 48)
  }

  /** The shortest decimal notation of `n`. */
  function Digits(n: nat): (s: seq<byte>)
    ensures s != [] && AllDigits(s) && DigitsValue(s) == n
    ensures s[0] != 48 || n == 0
  {
    if n < 10 then [48 + n] else Digits(n / 10) + [48 + n % 10]
  }

  /** `n` written with exactly `width` digits, zero-padded on the left. */
  function PadDigits(n: nat, width: nat): (s: seq<byte>)
    requires n < Pow10(width)
    ensures |s| == width && AllDigits(s) && DigitsValue(s) == n
  {
    if width == 0 then [] else PadDigits(n / 10, width - 1) + [48 + n % 10]
  }

  // ---------------------------------------------------------------------
  // parse_int

  /** A stripped integer literal: an optional sign, then one or more
      digits. */
  function ParseSignedDigits(t: seq<byte>): (r: Option<int>)
    ensures r.Some? ==> t != []
  {
    if t != [] && (t[0] == Plus || t[0] == Minus) then
      var d := t[1..];
      if d != [] && AllDigits(d) then
        var n: int := DigitsValue(d);
        Some(if t[0] == Minus then -n else n)
      else None
    else if t != [] && AllDigits(t) then Some(DigitsValue(t))
    else None
  }

  /** What `int()` accepts once whitespace is stripped: at least one digit,
      and nothing but digits apart from a sign in front. */
  predicate IntLiteral(t: seq<byte>) {
    HasDigit(t) && forall i :: 0 <= i < |t| ==> IsDigit(t[i]) || (i == 0 && IsSign(t[i]))
  }

  /** A stripped value has an integer value exactly when it is an integer
      literal. */
  lemma SignedDigitsAccepts(t: seq<byte>)
    ensures ParseSignedDigits(t).Some? <==> IntLiteral(t)
  {
    if t != [] && IsSign(t[0]) {
      var d := t[1..];
      if d != [] && AllDigits(d) {
        assert t[1] == d[0];
        forall i | 0 < i < |t| ensures IsDigit(t[i]) {
          assert t[i] == d[i - 1];
        }
      } else if d == [] {
        assert |t| == 1 && !IsDigit(t[0]);
      } else {
        var j :| 0 <= j < |d| && !IsDigit(d[j]);
        assert t[j + 1] == d[j];
      }
    } else if t != [] && AllDigits(t) {
      assert IsDigit(t[0]);
    } else if t != [] {
      var j :| 0 <= j < |t| && !IsDigit(t[j]);
      assert !(j == 0 && IsSign(t[j]));
    }
  }

  /** `int(value)` succeeds exactly when the stripped value is an integer
      literal. */
  lemma ParseIntAccepts(v: seq<byte>)
    ensures ParseInt(v).Some? <==> IntLiteral(Strip(v, IsAsciiSpace))
  {
    SignedDigitsAccepts(Strip(v, IsAsciiSpace));
  }

  /** `int(value)`: surrounding whitespace is allowed, and anything that is
      not an integer literal gives None instead of raising. */
  function ParseInt(v: seq<byte>): (r: Option<int>)
    ensures AllSpace(v, IsAsciiSpace) ==> r == None
  {
    ParseSignedDigits(Strip(v, IsAsciiSpace))
  }

  /** How an integer is written: a minus sign for negative values, then its
      digits. */
  function FormatInt(n: int): (s: seq<byte>)
    ensures s != [] && !IsAsciiSpace(s[0]) && !IsAsciiSpace(s[|s| - 1])
  {
    (if n < 0 then [Minus] else []) + Digits(if n < 0 then -n else n)
  }

  /** A right- or left-aligned integer, padded with spaces as dBase pads
      numeric fields, reads back as the integer. */
  lemma IntRoundTrip(n: int, pre: seq<byte>, post: seq<byte>)
    requires AllSpace(pre, IsAsciiSpace) && AllSpace(post, IsAsciiSpace)
    ensures ParseInt(pre + FormatInt(n) + post) == Some(n)
  {
    StripPadded(pre, FormatInt(n), post, IsAsciiSpace);
    SignedDigitsOfFormat(n);
  }

  lemma SignedDigitsOfFormat(n: int)
    ensures ParseSignedDigits(FormatInt(n)) == Some(n)
  {
    var s := FormatInt(n);
    if n < 0 {
      assert s[0] == Minus && s[1..] == Digits(-n);
    } else {
      assert s == Digits(n);
    }
  }

  /** A digit string of any fixed width reads back as its value. */
  lemma {:induction false} ParseIntPadDigits(n: nat, width: nat)
    requires 0 < width && n < Pow10(width)
    ensures ParseInt(PadDigits(n, width)) == Some(n)
  {
    var s := PadDigits(n, width);
    StripUnpadded(s, IsAsciiSpace);
    assert !(s[0] == Plus || s[0] == Minus);
  }

  // ---------------------------------------------------------------------
  // parse_float

  predicate IsExponentMark(b: byte) {
    b == 69 || b == 101
  }

  predicate IsDot(b: byte) {
    b == Dot
  }

  /** Index of the first byte of `s` that `p` accepts, or |s|. */
  function Find(s: seq<byte>, p: byte -> bool): (k: nat)
    ensures k <= |s|
    ensures k < |s| ==> p(s[k])
    ensures forall i :: 0 <= i < k ==> !p(s[i])
  {
    if s == [] || p(s[0]) then 0 else 1 + Find(s[1..], p)
  }

  /** 10 raised to `k`, for any integer `k`. */
  function Scale(k: int): (r: real)
    ensures r > 0.0
  {
    if k >= 0 then Pow10(k) as real else 1.0 / (Pow10(-k) as real)
  }

  /** The number that `whole`.`frac` denotes. */
  function DecimalValue(whole: seq<byte>, frac: seq<byte>): (r: real)
    requires AllDigits(whole) && AllDigits(frac)
    ensures r >= 0.0
  {
    DigitsValue(whole) as real + (DigitsValue(frac) as real) / (Pow10(|frac|) as real)
  }

  /** A decimal mantissa: digits, optionally a point and more digits, with
      at least one digit in all. */
  function ParseMantissa(m: seq<byte>): (r: Option<real>)
    ensures r.Some? ==> r.value >= 0.0
  {
    var d := Find(m, IsDot);
    var whole := m[..d];
    var frac := if d == |m| then [] else m[d + 1..];
    if AllDigits(whole) && AllDigits(frac) && |whole| + |frac| > 0 then
      Some(DecimalValue(whole, frac))
    else None
  }

  /** An unsigned float literal: a mantissa, then optionally `e` or `E`
      and a signed integer exponent. */
  function ParseUnsignedFloat(body: seq<byte>): (r: Option<real>)
  {
    var e := Find(body, IsExponentMark);
    var exponent := if e == |body| then Some(0) else ParseSignedDigits(body[e + 1..]);
    var mantissa := ParseMantissa(body[..e]);
    if mantissa.Some? && exponent.Some? then Some(mantissa.value * Scale(exponent.value))
    else None
  }

  /** `float(value)` on the decimal notations: surrounding whitespace, an
      optional sign, a mantissa and an optional exponent. The value is the
      exact decimal number the notation denotes. */
  function ParseFloat(v: seq<byte>): (r: Option<real>)
    ensures AllSpace(v, IsAsciiSpace) ==> r == None
  {
    ParseSignedFloat(Strip(v, IsAsciiSpace))
  }

  /** A stripped float literal: an optional sign, then an unsigned
      literal. */
  function ParseSignedFloat(t: seq<byte>): (r: Option<real>)
    ensures r.Some? ==> t != []
  {
    var signed := t != [] && (t[0] == Plus || t[0] == Minus);
    var magnitude := ParseUnsignedFloat(if signed then t[1..] else t);
    if magnitude.None? then None
    else if signed && t[0] == Minus then Some(-magnitude.value)
    else magnitude
  }

  /** The bytes a float literal is made of. */
  predicate IsFloatByte(b: byte) {
    IsDigit(b) || IsSign(b) || IsDot(b) || IsExponentMark(b)
  }

  /** A mantissa is digits and a point, with at least one digit. */
  lemma MantissaBytes(m: seq<byte>)
    requires ParseMantissa(m).Some?
    ensures forall i :: 0 <= i < |m| ==> IsDigit(m[i]) || IsDot(m[i])
    ensures HasDigit(m)
  {
    var d := Find(m, IsDot);
    var whole := m[..d];
    var frac := if d == |m| then [] else m[d + 1..];
    forall i | 0 <= i < |m| ensures IsDigit(m[i]) || IsDot(m[i]) {
      if i < d {
        assert m[i] == whole[i];
      } else if i > d {
        assert m[i] == frac[i - d - 1];
      }
    }
    if whole != [] {
      assert m[0] == whole[0];
    } else {
      assert m[d + 1] == frac[0];
    }
  }

  /** An unsigned float literal is made of float bytes and holds a
      digit. */
  lemma UnsignedFloatBytes(body: seq<byte>)
    requires ParseUnsignedFloat(body).Some?
    ensures forall i :: 0 <= i < |body| ==> IsFloatByte(body[i])
    ensures HasDigit(body)
  {
    var e := Find(body, IsExponentMark);
    var m := body[..e];
    MantissaBytes(m);
    forall i | 0 <= i < |body| ensures IsFloatByte(body[i]) {
      if i < e {
        assert body[i] == m[i];
      } else if i > e {
        ExponentByte(body, e, i);
      }
    }
    var k :| 0 <= k < |m| && IsDigit(m[k]);
    assert body[k] == m[k];
  }

  /** Past the exponent mark of a float literal come a sign and digits. */
  lemma ExponentByte(body: seq<byte>, e: nat, i: nat)
    requires e == Find(body, IsExponentMark) && e < i < |body|
    requires ParseSignedDigits(body[e + 1..]).Some?
    ensures IsDigit(body[i]) || IsSign(body[i])
  {
    SignedDigitsAccepts(body[e + 1..]);
    assert body[i] == body[e + 1..][i - e - 1];
  }

  /** A stripped float literal is made of float bytes and holds a digit. */
  lemma SignedFloatBytes(t: seq<byte>)
    requires ParseSignedFloat(t).Some?
    ensures forall i :: 0 <= i < |t| ==> IsFloatByte(t[i])
    ensures HasDigit(t)
  {
    if t[0] == Plus || t[0] == Minus {
      var body := t[1..];
      UnsignedFloatBytes(body);
      forall i | 0 < i < |t| ensures IsFloatByte(t[i]) {
        assert t[i] == body[i - 1];
      }
      var k :| 0 <= k < |body| && IsDigit(body[k]);
      assert t[k + 1] == body[k];
    } else {
      UnsignedFloatBytes(t);
    }
  }

  /** `float(value)` is None when the stripped value holds a byte that no
      decimal literal has, or when the value holds no digit at all. */
  lemma ParseFloatRejects(v: seq<byte>)
    ensures (exists i :: 0 <= i < |Strip(v, IsAsciiSpace)| && !IsFloatByte(Strip(v, IsAsciiSpace)[i]))
      ==> ParseFloat(v) == None
    ensures !HasDigit(v) ==> ParseFloat(v) == None
  {
    var t := Strip(v, IsAsciiSpace);
    if ParseFloat(v).Some? {
      SignedFloatBytes(t);
      var k :| 0 <= k < |t| && IsDigit(t[k]);
      assert t[k] == v[SpanLeft(v, IsAsciiSpace) + k];
    }
  }

  /** A literal with no exponent is read as its mantissa. */
  lemma UnsignedFloatWithoutExponent(body: seq<byte>)
    requires forall i :: 0 <= i < |body| ==> !IsExponentMark(body[i])
    ensures ParseUnsignedFloat(body) == ParseMantissa(body)
  {
    assert Find(body, IsExponentMark) == |body|;
    assert body[..|body|] == body;
    var m := ParseMantissa(body);
    if m.Some? {
      assert Scale(0) == 1.0;
    }
  }

  /** A digit string is a mantissa without a fraction. */
  lemma MantissaOfDigits(body: seq<byte>)
    requires body != [] && AllDigits(body)
    ensures ParseMantissa(body) == Some(DigitsValue(body) as real)
  {
    assert Find(body, IsDot) == |body|;
    assert body[..|body|] == body;
    assert DigitsValue([]) == 0 && Pow10(0) == 1;
    assert DecimalValue(body, []) == DigitsValue(body) as real;
  }

  /** Every integer literal `int()` accepts is accepted by `float()` with
      the same value, so an N field reads alike with and without
      decimals. */
  lemma FloatAgreesWithInt(v: seq<byte>)
    requires ParseInt(v).Some?
    ensures ParseFloat(v) == Some(ParseInt(v).value as real)
  {
    SignedDigitsAsFloat(Strip(v, IsAsciiSpace));
  }

  /** A stripped integer literal reads as a float with the same value. */
  lemma SignedDigitsAsFloat(t: seq<byte>)
    requires ParseSignedDigits(t).Some?
    ensures ParseSignedFloat(t) == Some(ParseSignedDigits(t).value as real)
  {
    var signed := t != [] && (t[0] == Plus || t[0] == Minus);
    var body := if signed then t[1..] else t;
    assert body != [] && AllDigits(body);
    UnsignedFloatWithoutExponent(body);
    MantissaOfDigits(body);
  }

  /** Without whitespace or sign, `float()` reads the unsigned literal. */
  lemma ParseFloatUnsigned(s: seq<byte>)
    requires s != [] && IsDigit(s[0]) && !IsAsciiSpace(s[|s| - 1])
    ensures ParseFloat(s) == ParseUnsignedFloat(s)
  {
    StripUnpadded(s, IsAsciiSpace);
    assert !(s[0] == Plus || s[0] == Minus);
  }

  /** In digits, a point and digits, the point is the first point. */
  lemma FindFirstDot(w: seq<byte>, f: seq<byte>)
    requires AllDigits(w)
    ensures Find(w + [Dot] + f, IsDot) == |w|
  {
    var s := w + [Dot] + f;
    assert s[|w|] == Dot;
    assert forall i :: 0 <= i < |w| ==> s[i] == w[i];
  }

  /** Digits, a point and digits form a mantissa with that fraction. */
  lemma MantissaWithFraction(w: seq<byte>, f: seq<byte>)
    requires AllDigits(w) && AllDigits(f) && w != []
    ensures ParseMantissa(w + [Dot] + f)
         == Some(DecimalValue(w, f))
  {
    var s := w + [Dot] + f;
    FindFirstDot(w, f);
    assert s[..|w|] == w;
    assert s[|w| + 1..] == f;
  }

  /** Digits, a point and digits read as the decimal number they write. */
  lemma DecimalLiteral(w: seq<byte>, f: seq<byte>)
    requires AllDigits(w) && AllDigits(f) && w != []
    ensures ParseFloat(w + [Dot] + f) == Some(DecimalValue(w, f))
  {
    DecimalLiteralEnds(w, f);
    ParseFloatUnsigned(w + [Dot] + f);
    DecimalLiteralHasNoExponent(w, f);
    UnsignedFloatWithoutExponent(w + [Dot] + f);
    MantissaWithFraction(w, f);
  }

  /** Digits, a point and digits start with a digit and end in a digit or
      the point. */
  lemma DecimalLiteralEnds(w: seq<byte>, f: seq<byte>)
    requires AllDigits(w) && AllDigits(f) && w != []
    ensures IsDigit((w + [Dot] + f)[0])
    ensures !IsAsciiSpace((w + [Dot] + f)[|w + [Dot] + f| - 1])
  {
    var s := w + [Dot] + f;
    assert s[0] == w[0];
    assert s[|s| - 1] == if f == [] then Dot else f[|f| - 1];
  }

  /** Digits, a point and digits hold no exponent mark. */
  lemma DecimalLiteralHasNoExponent(w: seq<byte>, f: seq<byte>)
    requires AllDigits(w) && AllDigits(f)
    ensures forall i :: 0 <= i < |w + [Dot] + f| ==> !IsExponentMark((w + [Dot] + f)[i])
  {
    var s := w + [Dot] + f;
    forall i | 0 <= i < |s| ensures !IsExponentMark(s[i]) {
      if i < |w| {
        assert s[i] == w[i];
      } else if i > |w| {
        assert s[i] == f[i - |w| - 1];
      }
    }
  }

  // ---------------------------------------------------------------------
  // parse_date

  datatype Date = Date(year: int, month: int, day: int)

  const MinYear := 1
  const MaxYear := 9999

  predicate IsLeapYear(y: int) {
    y % 4 == 0 && (y % 100 != 0 || y % 400 == 0)
  }

  function DaysInMonth(y: int, m: int): (n: int)
    requires 1 <= m <= 12
    ensures 28 <= n <= 31
  {
    if m == 2 then (if IsLeapYear(y) then 29 else 28)
    else if m == 4 || m == 6 || m == 9 || m == 11 then 30
    else 31
  }

  /** What `datetime.date(year, month, day)` accepts. */
  predicate ValidDate(d: Date) {
    MinYear <= d.year <= MaxYear && 1 <= d.month <= 12 &&
    1 <= d.day <= DaysInMonth(d.year, d.month)
  }

  function Min(a: nat, b: nat): nat {
    if a <= b then a else b
  }

  /** `date(*map(int, (value[:4], value[4:6], value[6:])))`, with None for
      any part `int()` refuses and for a date the calendar does not have. */
  function ParseDate(v: seq<byte>): (r: Option<Date>)
    ensures r.Some? ==> ValidDate(r.value)
    ensures |v| < 7 ==> r == None
  {
    var year := ParseInt(v[..Min(4, |v|)]);
    var month := ParseInt(v[Min(4, |v|)..Min(6, |v|)]);
    var day := ParseInt(v[Min(6, |v|)..]);
    if year.Some? && month.Some? && day.Some? then
      var d := Date(year.value, month.value, day.value);
      if ValidDate(d) then Some(d) else None
    else None
  }

  /** How a dBase D field stores a date: YYYYMMDD. */
  function FormatDate(d: Date): (s: seq<byte>)
    requires ValidDate(d)
    ensures |s| == 8
  {
    PadDigits(d.year, 4) + PadDigits(d.month, 2) + PadDigits(d.day, 2)
  }

  /** Every calendar date survives writing it as YYYYMMDD and parsing. */
  lemma DateRoundTrip(d: Date)
    requires ValidDate(d)
    ensures ParseDate(FormatDate(d)) == Some(d)
  {
    var s := FormatDate(d);
    assert s[..4] == PadDigits(d.year, 4);
    assert s[4..6] == PadDigits(d.month, 2);
    assert s[6..] == PadDigits(d.day, 2);
    ParseIntPadDigits(d.year, 4);
    ParseIntPadDigits(d.month, 2);
    ParseIntPadDigits(d.day, 2);
  }

  /** A date whose month is out of range is null, whatever the digits. */
  lemma {:induction false} BadMonthIsNull(year: nat, month: nat, day: nat)
    requires year < 10000 && 12 < month < 100 && day < 100
    ensures ParseDate(PadDigits(year, 4) + PadDigits(month, 2) + PadDigits(day, 2)) == None
  {
    var s := PadDigits(year, 4) + PadDigits(month, 2) + PadDigits(day, 2);
    assert s[4..6] == PadDigits(month, 2);
    ParseIntPadDigits(month, 2);
  }

  // ---------------------------------------------------------------------
  // parse_bool

  /** Python's `needle in hay` for bytes: `needle` occurs in `hay` as a
      contiguous run (the empty run occurs everywhere). */
  function Contains(hay: seq<byte>, needle: seq<byte>): (b: bool)
    ensures b ==> |needle| <= |hay|
  {
    needle <= hay || (hay != [] && Contains(hay[1..], needle))
  }

  /** `needle` occurs in `hay` starting at index `i`. */
  predicate OccursAt(hay: seq<byte>, needle: seq<byte>, i: int) {
    0 <= i <= |hay| - |needle| && hay[i..i + |needle|] == needle
  }

  /** Contains is the substring test it is meant to be. */
  lemma {:induction false} ContainsIsSubstring(hay: seq<byte>, needle: seq<byte>)
    ensures Contains(hay, needle) <==> exists i :: OccursAt(hay, needle, i)
  {
    OccursAtStart(hay, needle);
    if needle <= hay {
    } else if hay != [] {
      ContainsIsSubstring(hay[1..], needle);
      if exists i :: OccursAt(hay, needle, i) {
        var i :| OccursAt(hay, needle, i);
        OccursInTail(hay, needle, i);
      }
      if exists i :: OccursAt(hay[1..], needle, i) {
        var i :| OccursAt(hay[1..], needle, i);
        OccursInTail(hay, needle, i + 1);
      }
    } else {
      assert needle != [];
    }
  }

  /** An occurrence at index 0 is a prefix. */
  lemma OccursAtStart(hay: seq<byte>, needle: seq<byte>)
    ensures OccursAt(hay, needle, 0) <==> needle <= hay
  {
  }

  /** An occurrence past index 0 is an occurrence in the tail, one index
      earlier. */
  lemma OccursInTail(hay: seq<byte>, needle: seq<byte>, i: int)
    requires hay != [] && i >= 1
    ensures OccursAt(hay, needle, i) <==> OccursAt(hay[1..], needle, i - 1)
  {
    if i <= |hay| - |needle| {
      assert hay[1..][i - 1..i - 1 + |needle|] == hay[i..i + |needle|];
    }
  }

  /** For a single byte the substring test is membership. */
  lemma {:induction false} ContainsSingle(hay: seq<byte>, b: byte)
    ensures Contains(hay, [b]) <==> b in hay
  {
    if hay != [] {
      ContainsSingle(hay[1..], b);
      assert b in hay <==> b == hay[0] || b in hay[1..];
    }
  }

  /** A run holding a byte the haystack lacks does not occur in it. */
  lemma {:induction false} MissingByteNotContained(hay: seq<byte>, needle: seq<byte>, i: nat)
    requires i < |needle| && needle[i] !in hay
    ensures !Contains(hay, needle)
  {
    if |needle| <= |hay| {
      assert needle[i] != hay[i];
    }
    if hay != [] {
      MissingByteNotContained(hay[1..], needle, i);
    }
  }

  const TrueBytes: seq<byte> := [89, 121, 84, 116]   // "YyTt"
  const FalseBytes: seq<byte> := [78, 110, 70, 102]  // "NnFf"

  /** `parse_bool`: True when the value occurs in "YyTt", False when it
      occurs in "NnFf", None otherwise. */
  function ParseBool(v: seq<byte>): (r: Option<bool>)
    ensures |v| > 4 ==> r == None
  {
    if Contains(TrueBytes, v) then Some(true)
    else if Contains(FalseBytes, v) then Some(false)
    else None
  }

  /** The logical-field table for one byte. */
  lemma BoolSingleByte(b: byte)
    ensures ParseBool([b]) == if b in TrueBytes then Some(true)
                              else if b in FalseBytes then Some(false)
                              else None
  {
    ContainsSingle(TrueBytes, b);
    ContainsSingle(FalseBytes, b);
  }

  /** The empty value occurs in "YyTt", so a zero-length L field is True;
      so is a run such as "Yy". */
  lemma BoolSubstringQuirk()
    ensures ParseBool([]) == Some(true)
    ensures ParseBool([89, 121]) == Some(true)
    ensures ParseBool([89, 78]) == None
  {
    assert [89, 121] <= TrueBytes;
    MissingByteNotContained(TrueBytes, [89, 78], 1);
    MissingByteNotContained(FalseBytes, [89, 78], 0);
  }

  // ---------------------------------------------------------------------
  // get_parse_str (with the default ASCII codec)

  predicate IsAscii(v: seq<byte>) {
    forall i :: 0 <= i < |v| ==> v[i] < 128
  }

  /** `str.isspace()` for a character of ASCII text. */
  predicate IsStrSpaceChar(c: char) {
    (c as int) < 256 && IsStrSpace(c as int)
  }

  function AsciiText(v: seq<byte>): (s: string)
    requires IsAscii(v)
    ensures |s| == |v| && forall i :: 0 <= i < |v| ==> s[i] as int == v[i]
  {
    seq(|v|, i requires 0 <= i < |v| => v[i] as char)
  }

  /** `value.decode("ascii").strip()`, with None when a byte is not ASCII. */
  function ParseStr(v: seq<byte>): (r: Option<string>)
    ensures r.Some? <==> IsAscii(v)
    ensures r.Some? ==> |r.value| <= |v|
    ensures r.Some? ==> forall i :: 0 <= i < |r.value| ==> (r.value[i] as int) < 128
    ensures r.Some? && r.value != [] ==>
      !IsStrSpaceChar(r.value[0]) && !IsStrSpaceChar(r.value[|r.value| - 1])
    ensures r.Some? ==> var k := SpanLeft(v, IsStrSpace);
      k + |r.value| <= |v| && AllSpace(v[..k], IsStrSpace) && AllSpace(v[k + |r.value|..], IsStrSpace) &&
      r.value == AsciiText(v[k..k + |r.value|])
  {
    if IsAscii(v) then
      StripKeepsAscii(v);
      StripSplits(v, IsStrSpace);
      Some(AsciiText(Strip(v, IsStrSpace)))
    else None
  }

  /** Stripping ASCII text leaves ASCII text. */
  lemma StripKeepsAscii(v: seq<byte>)
    requires IsAscii(v)
    ensures IsAscii(Strip(v, IsStrSpace))
  {
    var t := Strip(v, IsStrSpace);
    forall i | 0 <= i < |t| ensures t[i] < 128 {
      assert t[i] == v[SpanLeft(v, IsStrSpace) + i];
    }
  }

  /** ASCII text between any runs of whitespace reads back without them;
      all-whitespace padding alone reads back as the empty text. */
  lemma StrRoundTrip(pre: seq<byte>, s: seq<byte>, post: seq<byte>)
    requires AllSpace(pre, IsStrSpace) && AllSpace(post, IsStrSpace) && IsAscii(s)
    requires s == [] || (!IsStrSpace(s[0]) && !IsStrSpace(s[|s| - 1]))
    ensures ParseStr(pre + s + post) == Some(AsciiText(s))
  {
    var v := pre + s + post;
    forall i | 0 <= i < |v| ensures v[i] < 128 {
      if i < |pre| { assert v[i] == pre[i]; }
      else if i < |pre| + |s| { assert v[i] == s[i - |pre|]; }
      else { assert v[i] == post[i - |pre| - |s|]; }
    }
    StripPadded(pre, s, post, IsStrSpace);
  }
}
