/** Rows of columns as keys: every codec at once, in both directions. */
module KeyRows {
  import opened ByteStrings
  import opened GoInts
  import opened Varint
  import opened KeyBytes
  import opened BitArrays
  import opened BitWords
  import KeyDecimal
  import KeyBitArray
  import opened KeyFloat
  import opened KeyTokens
  import Durations

  datatype ColumnType =
    | IntColumn | BytesColumn | DecimalColumn | BitArrayColumn | FloatColumn | TimeColumn | TimeTzColumn | DurationColumn
  datatype Column = Column(ty: ColumnType, desc: bool)

  const MICROS_PER_SEC := 1_000_000

  /** NotNull is the bound of a span above NULL and below every value. Floats are given by their
      bits, a time by its Unix second and the nanosecond within it, a time with zone by its
      microsecond of the day and the seconds its zone is behind. */
  datatype Datum =
    | Null
    | NotNull
    | Int(v: int64)
    | Str(data: bytes)
    | Dec(d: KeyDecimal.Decimal)
    | Bits(bits: BitArray)
    | Float(u: uint64)
    | Time(sec: int64, nanos: int64)
    | TimeTz(ofDay: int64, offset: int32)
    | Span(span: Durations.Duration)

  predicate Encodable(x: Datum) {
    match x
    case Dec(d) => KeyDecimal.Representable(d)
    case Bits(b) => b.lastBitsUsed <= BITS_PER_WORD
    case Span(d) => Durations.Encode(d).Some?
    case _ => true
  }

  predicate Fits(ty: ColumnType, x: Datum) {
    Encodable(x) &&
    match x
    case Null => true
    case NotNull => true
    case Int(_) => ty.IntColumn?
    case Str(_) => ty.BytesColumn?
    case Dec(_) => ty.DecimalColumn?
    case Bits(_) => ty.BitArrayColumn?
    case Float(_) => ty.FloatColumn?
    case Time(_, _) => ty.TimeColumn?
    case TimeTz(_, _) => ty.TimeTzColumn?
    case Span(_) => ty.DurationColumn?
  }

  predicate Compound(x: Datum) {
    x.Time? || x.TimeTz? || x.Span?
  }

  /** The tag of times and durations, and the varints behind it. */
  function Marker(x: Datum): byte
    requires Compound(x)
  {
    if x.Time? then TIME_MARKER else if x.TimeTz? then TIME_TZ_MARKER else DURATION_MARKER
  }

  /** The moment of a time with zone, in microseconds. */
  function Instant(ofDay: int64, offset: int32): int64 {
    ToInt64(ofDay + offset * MICROS_PER_SEC)
  }

  function Parts(x: Datum): seq<int64>
    requires Compound(x) && Encodable(x)
  {
    match x
    case Time(sec, nanos) => [sec, nanos]
    case TimeTz(ofDay, offset) => [Instant(ofDay, offset), offset]
    case Span(d) => var (sortNanos, months, days) := Durations.Encode(d).value; [sortNanos, months, days]
  }

  function EncodeDatum(x: Datum, desc: bool): bytes
    requires Encodable(x)
  {
    match x
    case Null => if desc then [ENCODED_NULL_DESC] else [ENCODED_NULL]
    case NotNull => if desc then [ENCODED_NOT_NULL_DESC] else [ENCODED_NOT_NULL]
    case Int(v) => if desc then EncodeVarintDescending(v) else EncodeVarintAscending(v)
    case Str(data) => if desc then EncodeBytesDescending(data) else EncodeBytesAscending(data)
    case Dec(d) => KeyDecimal.EncodeDecimal(d, desc)
    case Bits(b) => KeyBitArray.EncodeBitArray(b, desc)
    case Float(u) => EncodeFloat(u, desc)
    case _ => [Marker(x)] + EncodeVarints(Parts(x), desc)
  }

  predicate RowFits(schema: seq<Column>, row: seq<Datum>) {
    |row| == |schema| && forall i :: 0 <= i < |row| ==> Fits(schema[i].ty, row[i])
  }

  function EncodeRow(schema: seq<Column>, row: seq<Datum>): bytes
    requires RowFits(schema, row)
  {
    if row == [] then [] else EncodeDatum(row[0], schema[0].desc) + EncodeRow(schema[1..], row[1..])
  }

  // ---------------------------------------------------------------- the SQL order

  /** NULL comes before every value, NotNull between them; values of one type in their own order. */
  predicate Less(x: Datum, y: Datum)
    requires Encodable(x) && Encodable(y)
  {
    match (x, y)
    case (Null, _) => !y.Null?
    case (NotNull, _) => !y.Null? && !y.NotNull?
    case (Int(v), Int(w)) => v < w
    case (Str(a), Str(b)) => CompareBytes(a, b) < 0
    case (Dec(a), Dec(b)) => KeyDecimal.Less(a, b)
    case (Bits(a), Bits(b)) => Compare(a, b) < 0
    case (Float(u), Float(v)) => FloatLess(u, v)
    case (Time(s, n), Time(t, m)) => s < t || (s == t && n < m)
    case (TimeTz(s, n), TimeTz(t, m)) => Instant(s, n) < Instant(t, m) || (Instant(s, n) == Instant(t, m) && n < m)
    case (Span(d), Span(e)) => SpanLess(d, e)
    case _ => false
  }

  /** By length, then by months, then by days. */
  predicate SpanLess(d: Durations.Duration, e: Durations.Duration)
    requires Durations.Encode(d).Some? && Durations.Encode(e).Some?
  {
    var m, n := Durations.Encode(d).value.0, Durations.Encode(e).value.0;
    m < n || (m == n && (d.months < e.months || (d.months == e.months && d.days < e.days)))
  }

  predicate Same(x: Datum, y: Datum) {
    match (x, y)
    case (Dec(a), Dec(b)) => KeyDecimal.SameNumber(a, b)
    case (Float(u), Float(v)) => SameFloat(u, v)
    case _ => x == y
  }

  predicate ColumnLess(c: Column, x: Datum, y: Datum)
    requires Encodable(x) && Encodable(y)
  {
    if c.desc then Less(y, x) else Less(x, y)
  }

  /** Column by column, descending columns reversed. */
  predicate RowLess(schema: seq<Column>, a: seq<Datum>, b: seq<Datum>)
    requires RowFits(schema, a) && RowFits(schema, b)
  {
    schema != [] && (ColumnLess(schema[0], a[0], b[0]) ||
                     (Same(a[0], b[0]) && RowLess(schema[1..], a[1..], b[1..])))
  }

  predicate RowSame(a: seq<Datum>, b: seq<Datum>) {
    |a| == |b| && forall i :: 0 <= i < |a| ==> Same(a[i], b[i])
  }

  lemma {:induction false} CompareBytesTotal(a: bytes, b: bytes)
    ensures CompareBytes(b, a) == -CompareBytes(a, b)
  {
    if a != [] && b != [] { CompareBytesTotal(a[1..], b[1..]); }
  }

  lemma DatumTotal(ty: ColumnType, x: Datum, y: Datum)
    requires Fits(ty, x) && Fits(ty, y)
    ensures Less(x, y) || Same(x, y) || Less(y, x)
  {
    hide Durations.Encode, Instant;
    match (x, y)
    case (Str(a), Str(b)) => CompareBytesTotal(a, b);
    case (Bits(a), Bits(b)) => CompareWordsZero(a.words, b.words);
    case (Float(u), Float(v)) => FloatTotal(u, v, false);
    case (TimeTz(s, n), TimeTz(t, m)) => if n == m { InstantInverts(s, n); InstantInverts(t, m); }
    case (Span(d), Span(e)) => Durations.EncodeDecode(d); Durations.EncodeDecode(e); PartsAre(d); PartsAre(e);
    case _ =>
  }

  lemma PartsAre(d: Durations.Duration)
    requires Durations.Encode(d).Some?
    ensures Durations.Encode(d).value.1 == d.months && Durations.Encode(d).value.2 == d.days
  {
  }

  /** The time of day is what the instant and the zone leave. */
  lemma InstantInverts(ofDay: int64, offset: int32)
    ensures ToInt64(Instant(ofDay, offset) - offset * MICROS_PER_SEC) == ofDay
  {
    Durations.WrapAdd(ofDay + offset * MICROS_PER_SEC, -(offset * MICROS_PER_SEC));
    Durations.Fits(ofDay);
  }

  /** Durations with totals of 64 bits are ordered by those first, as Compare orders them. */
  lemma SpanOrder(d: Durations.Duration, e: Durations.Duration)
    requires Durations.Encode(d).Some? && Durations.Encode(e).Some?
    requires -TWO63 <= Durations.Total(d) < TWO63 && -TWO63 <= Durations.Total(e) < TWO63
    ensures Durations.Total(d) < Durations.Total(e) ==> SpanLess(d, e)
    ensures Durations.Regular(d) && Durations.Regular(e) && Durations.Compare(d, e) < 0 ==> SpanLess(d, e)
  {
    hide Durations.Encode, Durations.Compare, Durations.Total, Durations.Regular;
    Durations.EncodeDecode(d);
    Durations.EncodeDecode(e);
    Durations.CompareExact(d);
  }

  lemma {:induction false} RowTotal(schema: seq<Column>, a: seq<Datum>, b: seq<Datum>)
    requires RowFits(schema, a) && RowFits(schema, b)
    ensures RowLess(schema, a, b) || RowSame(a, b) || RowLess(schema, b, a)
  {
    if schema != [] {
      DatumTotal(schema[0].ty, a[0], b[0]);
      RowTotal(schema[1..], a[1..], b[1..]);
    }
  }

  // ---------------------------------------------------------------- order

  /** Varints one behind the other keep the order of the first difference. */
  lemma {:induction false} VarintsOrder(a: seq<int64>, b: seq<int64>, k: nat, desc: bool)
    requires |a| == |b| && k < |a| && a[..k] == b[..k] && a[k] < b[k]
    ensures if desc then Before(EncodeVarints(b, desc), EncodeVarints(a, desc)) else Before(EncodeVarints(a, desc), EncodeVarints(b, desc))
    decreases k
  {
    hide Before, EncodeVarintAscending, EncodeVarintDescending;
    var x, y := EncodeVarints(a[1..], desc), EncodeVarints(b[1..], desc);
    if k == 0 {
      VarintsFirst(a, b, desc);
    } else {
      assert a[0] == a[..k][0] == b[0] && a[1..][..k - 1] == a[..k][1..] && b[1..][..k - 1] == b[..k][1..];
      VarintsOrder(a[1..], b[1..], k - 1, desc);
      var e := if desc then EncodeVarintDescending(a[0]) else EncodeVarintAscending(a[0]);
      if desc { BeforeUnderPrefix(e, y, x); } else { BeforeUnderPrefix(e, x, y); }
    }
  }

  lemma VarintsFirst(a: seq<int64>, b: seq<int64>, desc: bool)
    requires a != [] && b != [] && a[0] < b[0]
    ensures if desc then Before(EncodeVarints(b, desc), EncodeVarints(a, desc)) else Before(EncodeVarints(a, desc), EncodeVarints(b, desc))
  {
    hide Before, EncodeVarintAscending, EncodeVarintDescending;
    var x, y := EncodeVarints(a[1..], desc), EncodeVarints(b[1..], desc);
    if desc {
      VarintDescendingOrder(a[0], b[0]);
      BeforeExtends(EncodeVarintDescending(b[0]), EncodeVarintDescending(a[0]), y, x);
    } else {
      VarintAscendingOrder(a[0], b[0]);
      BeforeExtends(EncodeVarintAscending(a[0]), EncodeVarintAscending(b[0]), x, y);
    }
  }

  lemma CompoundOrder(x: Datum, y: Datum, desc: bool)
    requires Compound(x) && Encodable(x) && Encodable(y) && Less(x, y)
    ensures if desc then Before(EncodeDatum(y, desc), EncodeDatum(x, desc)) else Before(EncodeDatum(x, desc), EncodeDatum(y, desc))
  {
    hide Before, EncodeVarints, Durations.Encode, Instant;
    if x.Span? { PartsAre(x.span); PartsAre(y.span); }
    var a, b := Parts(x), Parts(y);
    assert |a| == |b| && Marker(x) == Marker(y);
    var k := if a[0] != b[0] then 0 else if a[1] != b[1] then 1 else 2;
    assert a[..k] == b[..k];
    VarintsOrder(a, b, k, desc);
    var e, f := EncodeVarints(a, desc), EncodeVarints(b, desc);
    if desc { BeforeUnderPrefix([Marker(x)], f, e); } else { BeforeUnderPrefix([Marker(x)], e, f); }
  }

  /** The first byte of a value's encoding lies strictly between the tags of NULL and NotNull. */
  lemma ValueTag(x: Datum, desc: bool, rest: bytes)
    requires !x.Null? && !x.NotNull? && Encodable(x)
    ensures var b := EncodeDatum(x, desc); b != [] && ENCODED_NOT_NULL < b[0] < ENCODED_NOT_NULL_DESC
  {
    hide EncodeVarints, Durations.Encode;
    match x
    case Int(v) => VarintLength(v, rest);
    case Dec(d) => KeyDecimal.DecimalLength(d, desc, rest);
    case _ =>
  }

  lemma DatumOrder(c: Column, x: Datum, y: Datum)
    requires Fits(c.ty, x) && Fits(c.ty, y) && ColumnLess(c, x, y)
    ensures Before(EncodeDatum(x, c.desc), EncodeDatum(y, c.desc))
  {
    hide Before, EncodeVarintAscending, EncodeVarintDescending, EncodeBytesAscending, EncodeBytesDescending,
         KeyDecimal.EncodeDecimal, KeyBitArray.EncodeBitArray, EncodeVarints, EncodeFloat, Compare, Parts, SpanLess, Instant, FloatLess,
         Durations.Encode;
    match (x, y)
    case (Int(v), Int(w)) => if c.desc { VarintDescendingOrder(w, v); } else { VarintAscendingOrder(v, w); }
    case (Str(a), Str(b)) => if c.desc { BytesDescendingOrder(b, a); } else { BytesAscendingOrder(a, b); }
    case (Dec(a), Dec(b)) => if c.desc { KeyDecimal.DecimalOrder(b, a, true); } else { KeyDecimal.DecimalOrder(a, b, false); }
    case (Bits(a), Bits(b)) => if c.desc { KeyBitArray.BitArrayOrder(b, a, true); } else { KeyBitArray.BitArrayOrder(a, b, false); }
    case (Float(u), Float(v)) => if c.desc { FloatOrder(v, u, true); } else { FloatOrder(u, v, false); }
    case _ =>
      if Compound(x) && Compound(y) {
        if c.desc { CompoundOrder(y, x, true); } else { CompoundOrder(x, y, false); }
      } else {
        NullOrder(c, x, y);
      }
  }

  predicate Bound(x: Datum) {
    x.Null? || x.NotNull?
  }

  lemma NullOrder(c: Column, x: Datum, y: Datum)
    requires Fits(c.ty, x) && Fits(c.ty, y) && ColumnLess(c, x, y) && (Bound(x) || Bound(y))
    ensures Before(EncodeDatum(x, c.desc), EncodeDatum(y, c.desc))
  {
    if !Bound(x) { ValueTag(x, c.desc, []); }
    if !Bound(y) { ValueTag(y, c.desc, []); }
    hide EncodeVarintAscending, EncodeVarintDescending, KeyDecimal.EncodeDecimal, EncodeFloat, EncodeVarints, Parts;
    FirstByte(EncodeDatum(x, c.desc), EncodeDatum(y, c.desc));
  }

  lemma FirstByte(a: bytes, b: bytes)
    requires a != [] && b != [] && a[0] < b[0]
    ensures Before(a, b)
  {
  }

  lemma DatumSame(c: Column, x: Datum, y: Datum)
    requires Fits(c.ty, x) && Fits(c.ty, y) && Same(x, y)
    ensures EncodeDatum(x, c.desc) == EncodeDatum(y, c.desc)
  {
    hide EncodeFloat, SameFloat, Parts;
    if x.Dec? { KeyDecimal.DecimalEqual(x.d, y.d, c.desc); }
    if x.Float? { FloatTotal(x.u, y.u, c.desc); }
  }

  lemma {:induction false} RowBefore(schema: seq<Column>, a: seq<Datum>, b: seq<Datum>)
    requires RowFits(schema, a) && RowFits(schema, b)
    ensures RowLess(schema, a, b) ==> Before(EncodeRow(schema, a), EncodeRow(schema, b))
    ensures RowSame(a, b) ==> EncodeRow(schema, a) == EncodeRow(schema, b)
  {
    hide Before, EncodeDatum, Less, Same;
    if schema != [] {
      var x, y := EncodeDatum(a[0], schema[0].desc), EncodeDatum(b[0], schema[0].desc);
      var s, t := EncodeRow(schema[1..], a[1..]), EncodeRow(schema[1..], b[1..]);
      RowBefore(schema[1..], a[1..], b[1..]);
      if Same(a[0], b[0]) {
        DatumSame(schema[0], a[0], b[0]);
        BeforeUnderPrefix(x, s, t);
      }
      if ColumnLess(schema[0], a[0], b[0]) {
        DatumOrder(schema[0], a[0], b[0]);
        BeforeExtends(x, y, s, t);
      }
    }
  }

  /** Comparing the concatenated encodings byte by byte is comparing the rows column by
      column, whatever follows the keys. */
  lemma RowOrder(schema: seq<Column>, a: seq<Datum>, b: seq<Datum>)
    requires RowFits(schema, a) && RowFits(schema, b)
    ensures CompareBytes(EncodeRow(schema, a), EncodeRow(schema, b)) < 0 <==> RowLess(schema, a, b)
    ensures EncodeRow(schema, a) == EncodeRow(schema, b) <==> RowSame(a, b)
    ensures RowLess(schema, a, b) ==>
              forall p, q :: CompareBytes(EncodeRow(schema, a) + p, EncodeRow(schema, b) + q) < 0
  {
    var x, y := EncodeRow(schema, a), EncodeRow(schema, b);
    RowTotal(schema, a, b);
    RowBefore(schema, a, b);
    RowBefore(schema, b, a);
    hide EncodeRow, RowLess, RowSame, Before, CompareBytes;
    if RowLess(schema, a, b) {
      BeforeCompares(x, y);
      forall p, q ensures CompareBytes(x + p, y + q) < 0 {
        BeforeExtends(x, y, p, q);
        BeforeCompares(x + p, y + q);
      }
    } else if RowLess(schema, b, a) {
      BeforeCompares(y, x);
    }
  }

  /** No row's key is a proper prefix of another's under the same schema. */
  lemma RowPrefixFree(schema: seq<Column>, a: seq<Datum>, b: seq<Datum>)
    requires RowFits(schema, a) && RowFits(schema, b)
    requires EncodeRow(schema, a) <= EncodeRow(schema, b)
    ensures RowSame(a, b)
  {
    var x, y := EncodeRow(schema, a), EncodeRow(schema, b);
    RowTotal(schema, a, b);
    RowBefore(schema, a, b);
    RowBefore(schema, b, a);
    if Before(x, y) { BeforeNotPrefix(x, y); }
    if Before(y, x) { BeforeNotPrefix(y, x); }
  }

  // ---------------------------------------------------------------- round trip

  function DecodeVarints(b: bytes, n: nat, desc: bool): (r: Decoded<seq<int64>>)
    ensures r.Ok? ==> |r.value| == n
  {
    if n == 0 then Ok(b, [])
    else
      match if desc then DecodeVarintDescending(b) else DecodeVarintAscending(b)
      case Err(e) => Err(e)
      case Ok(r, v) =>
        match DecodeVarints(r, n - 1, desc)
        case Err(e) => Err(e)
        case Ok(rest, vs) => Ok(rest, [v] + vs)
  }

  /** A tag and n varints behind it. */
  function DecodeCompound(b: bytes, tags: set<byte>, n: nat, desc: bool): (r: Decoded<seq<int64>>)
    ensures r.Ok? ==> |r.value| == n
  {
    if b == [] || b[0] !in tags then Err(MissingMarker) else DecodeVarints(b[1..], n, desc)
  }

  /** DecodeIfNull, DecodeIfNotNull, then the decoder for the column's type and direction. */
  function DecodeDatum(c: Column, b: bytes): Decoded<Datum>
    requires b != []
  {
    if IsNull(b) then Ok(b[1..], Null) else if IsNotNull(b) then Ok(b[1..], NotNull) else DecodeValue(c, b)
  }

  function DecodeValue(c: Column, b: bytes): Decoded<Datum>
    requires b != []
  {
    match c.ty
    case IntColumn =>
      (match if c.desc then DecodeVarintDescending(b) else DecodeVarintAscending(b)
       case Err(e) => Err(e)
       case Ok(r, v) => Ok(r, Int(v)))
    case BytesColumn =>
      (match if c.desc then DecodeBytesDescending(b) else DecodeBytesAscending(b)
       case Err(e) => Err(e)
       case Ok(r, s) => Ok(r, Str(s)))
    case DecimalColumn =>
      (match KeyDecimal.DecodeDecimal(b, c.desc)
       case Err(e) => Err(e)
       case Ok(r, d) => Ok(r, Dec(d)))
    case BitArrayColumn =>
      (match KeyBitArray.DecodeBitArray(b, c.desc)
       case Err(e) => Err(e)
       case Ok(r, d) => Ok(r, Bits(d)))
    case FloatColumn =>
      (match DecodeFloat(b, c.desc)
       case Err(e) => Err(e)
       case Ok(r, u) => Ok(r, Float(u)))
    case TimeColumn =>
      (match DecodeCompound(b, {TIME_MARKER}, 2, c.desc)
       case Err(e) => Err(e)
       case Ok(r, vs) => Ok(r, Time(vs[0], vs[1])))
    case TimeTzColumn =>
      (match DecodeCompound(b, {TIME_TZ_MARKER}, 2, c.desc)
       case Err(e) => Err(e)
       case Ok(r, vs) => Ok(r, TimeTz(ToInt64(vs[0] - ToInt32(vs[1]) * MICROS_PER_SEC), ToInt32(vs[1]))))
    case DurationColumn =>
      match DecodeCompound(b, {DURATION_BIG_NEG_MARKER, DURATION_MARKER, DURATION_BIG_POS_MARKER}, 3, c.desc)
      case Err(e) => Err(e)
      case Ok(r, vs) => Ok(r, Span(Durations.Decode(vs[0], vs[1], vs[2])))
  }

  /** What a stored datum reads back as: decimals lose trailing zeros, floats all but one zero and one
      NaN, and everything else is unchanged. */
  function Stored(x: Datum, desc: bool): Datum {
    match x
    case Dec(d) => Dec(KeyDecimal.Reduced(d))
    case Float(u) => Float(StoredFloat(u, desc))
    case _ => x
  }

  lemma DecodeNothing(b: bytes, desc: bool)
    ensures DecodeVarints(b, 0, desc) == Ok(b, [])
  {
  }

  lemma DecodeFirst(b: bytes, n: nat, desc: bool, v: int64, tail: bytes)
    requires n > 0 && Ok(tail, v) == if desc then DecodeVarintDescending(b) else DecodeVarintAscending(b)
    ensures DecodeVarints(b, n, desc) ==
            match DecodeVarints(tail, n - 1, desc)
            case Err(e) => Err(e)
            case Ok(rest, vs) => Ok(rest, [v] + vs)
  {
    hide DecodeVarintAscending, DecodeVarintDescending;
  }

  lemma {:induction false} VarintsRoundTrip(vs: seq<int64>, desc: bool, rest: bytes)
    ensures DecodeVarints(EncodeVarints(vs, desc) + rest, |vs|, desc) == Ok(rest, vs)
  {
    hide EncodeVarintAscending, EncodeVarintDescending, DecodeVarintAscending, DecodeVarintDescending, DecodeVarints;
    if vs == [] {
      DecodeNothing(rest, desc);
      assert EncodeVarints(vs, desc) + rest == rest;
    } else {
      var tail := EncodeVarints(vs[1..], desc) + rest;
      VarintsRoundTrip(vs[1..], desc, rest);
      if desc { VarintDescendingRoundTrip(vs[0], tail); } else { VarintAscendingRoundTrip(vs[0], tail); }
      var e := if desc then EncodeVarintDescending(vs[0]) else EncodeVarintAscending(vs[0]);
      assert EncodeVarints(vs, desc) + rest == e + tail;
      DecodeFirst(e + tail, |vs|, desc, vs[0], tail);
      assert [vs[0]] + vs[1..] == vs;
    }
  }

  lemma CompoundRoundTrip(c: Column, x: Datum, rest: bytes)
    requires Fits(c.ty, x) && Compound(x)
    ensures DecodeValue(c, EncodeDatum(x, c.desc) + rest) == Ok(rest, x)
  {
    hide EncodeVarints, DecodeVarints, Durations.Encode, Durations.Decode, Instant, ToInt64;
    var vs := Parts(x);
    VarintsRoundTrip(vs, c.desc, rest);
    assert (EncodeDatum(x, c.desc) + rest)[1..] == EncodeVarints(vs, c.desc) + rest;
    match x
    case TimeTz(s, n) => InstantInverts(s, n);
    case Span(d) => Durations.EncodeDecode(d);
    case _ =>
  }

  lemma ValueRoundTrip(c: Column, x: Datum, rest: bytes)
    requires Fits(c.ty, x) && !Bound(x) && EncodeDatum(x, c.desc) != []
    ensures var b := EncodeDatum(x, c.desc) + rest; b != [] && DecodeValue(c, b) == Ok(rest, Stored(x, c.desc))
  {
    hide EncodeVarintAscending, EncodeVarintDescending, EncodeBytesAscending, EncodeBytesDescending,
         KeyDecimal.EncodeDecimal, KeyBitArray.EncodeBitArray, EncodeFloat, EncodeVarints, Parts,
         DecodeVarintAscending, DecodeVarintDescending, DecodeBytesAscending, DecodeBytesDescending,
         KeyDecimal.DecodeDecimal, KeyBitArray.DecodeBitArray, DecodeFloat, DecodeCompound, KeyDecimal.Reduced, StoredFloat;
    match x
    case Int(v) => if c.desc { VarintDescendingRoundTrip(v, rest); } else { VarintAscendingRoundTrip(v, rest); }
    case Str(s) => if c.desc { BytesDescendingRoundTrip(s, rest); } else { BytesAscendingRoundTrip(s, rest); }
    case Dec(d) => KeyDecimal.DecimalRoundTrip(d, c.desc, rest);
    case Bits(b) => KeyBitArray.BitArrayRoundTrip(b, c.desc, rest);
    case Float(u) => FloatRoundTrip(u, c.desc, rest);
    case _ => CompoundRoundTrip(c, x, rest);
  }

  lemma DatumRoundTrip(c: Column, x: Datum, rest: bytes)
    requires Fits(c.ty, x)
    ensures var b := EncodeDatum(x, c.desc) + rest; b != [] && DecodeDatum(c, b) == Ok(rest, Stored(x, c.desc))
  {
    if Bound(x) {
      assert (EncodeDatum(x, c.desc) + rest)[1..] == rest;
    } else {
      ValueTag(x, c.desc, rest);
      hide EncodeDatum, DecodeValue;
      ValueRoundTrip(c, x, rest);
    }
  }

  function DecodeRow(schema: seq<Column>, b: bytes): Decoded<seq<Datum>> {
    if schema == [] then Ok(b, [])
    else if b == [] then Err(Empty)
    else
      match DecodeDatum(schema[0], b)
      case Err(e) => Err(e)
      case Ok(r, x) =>
        match DecodeRow(schema[1..], r)
        case Err(e) => Err(e)
        case Ok(rest, xs) => Ok(rest, [x] + xs)
  }

  /** Reading a key back gives the row it was written from and the untouched rest. */
  lemma {:induction false} RowRoundTrip(schema: seq<Column>, row: seq<Datum>, rest: bytes) returns (stored: seq<Datum>)
    requires RowFits(schema, row)
    ensures DecodeRow(schema, EncodeRow(schema, row) + rest) == Ok(rest, stored)
    ensures |stored| == |row| && forall i :: 0 <= i < |row| ==> stored[i] == Stored(row[i], schema[i].desc)
  {
    hide EncodeDatum, DecodeDatum, Stored;
    if row == [] {
      assert EncodeRow(schema, row) + rest == rest;
      stored := [];
    } else {
      var tail := EncodeRow(schema[1..], row[1..]) + rest;
      var s := RowRoundTrip(schema[1..], row[1..], rest);
      DatumRoundTrip(schema[0], row[0], tail);
      assert EncodeRow(schema, row) + rest == EncodeDatum(row[0], schema[0].desc) + tail;
      stored := [Stored(row[0], schema[0].desc)] + s;
    }
  }

  // ---------------------------------------------------------------- token boundaries

  lemma StrPeek(s: bytes, desc: bool, rest: bytes)
    ensures var e := EncodeDatum(Str(s), desc); e != [] && PeekLength(e + rest) == Success(|e|)
  {
    hide PeekLength, GetBytesLength, Escaped, Complement;
    var e := EncodeDatum(Str(s), desc);
    BytesLength(s, rest);
    StrLength(e + rest);
  }

  lemma BitsPeek(b: BitArray, desc: bool, rest: bytes)
    requires Encodable(Bits(b))
    ensures var e := EncodeDatum(Bits(b), desc); e != [] && PeekLength(e + rest) == Success(|e|)
  {
    hide PeekLength, KeyBitArray.GetBitArrayLen, KeyBitArray.Tail;
    var e := EncodeDatum(Bits(b), desc);
    KeyBitArray.BitArrayLength(b, desc, rest);
    BitsLength(e + rest);
  }

  lemma CompoundPeek(x: Datum, desc: bool, rest: bytes)
    requires Compound(x) && Encodable(x)
    ensures var e := EncodeDatum(x, desc); e != [] && PeekLength(e + rest) == Success(|e|)
  {
    hide PeekLength, EncodeVarints;
    TaggedLength(Marker(x), Parts(x), desc, rest);
  }

  /** A float is its tag and eight bytes, or one byte. */
  lemma FloatPeek(u: uint64, desc: bool, rest: bytes)
    ensures var e := EncodeFloat(u, desc); e != [] && PeekLength(e + rest) == Success(|e|)
  {
    hide PeekLength, BigEndian;
    var b := EncodeFloat(u, desc) + rest;
    if |EncodeFloat(u, desc)| == 1 { SingleByteLength(b); } else { FloatDispatch(b); }
  }

  lemma DecPeek(d: KeyDecimal.Decimal, desc: bool, rest: bytes)
    requires KeyDecimal.Representable(d)
    ensures var e := KeyDecimal.EncodeDecimal(d, desc); e != [] && PeekLength(e + rest) == Success(|e|)
  {
    hide PeekLength, KeyDecimal.EncodeDecimal, KeyDecimal.GetDecimalLen;
    KeyDecimal.DecimalLength(d, desc, rest);
    DecLength(KeyDecimal.EncodeDecimal(d, desc) + rest);
  }

  lemma IntPeek(v: int64, rest: bytes)
    ensures var e := EncodeVarintAscending(v); e != [] && PeekLength(e + rest) == Success(|e|)
  {
    hide PeekLength, EncodeVarintAscending, GetVarintLen;
    VarintLength(v, rest);
    IntLength(EncodeVarintAscending(v) + rest);
  }

  lemma PeekValue(x: Datum, desc: bool, rest: bytes)
    requires Encodable(x)
    ensures var e := EncodeDatum(x, desc); e != [] && PeekLength(e + rest) == Success(|e|)
  {
    hide EncodeVarintAscending, KeyDecimal.EncodeDecimal, KeyBitArray.EncodeBitArray, EncodeFloat,
         EncodeBytesAscending, EncodeBytesDescending, PeekLength, Parts;
    match x
    case Null => SingleByteLength(EncodeDatum(x, desc) + rest);
    case NotNull => SingleByteLength(EncodeDatum(x, desc) + rest);
    case Int(v) => IntPeek(if desc then -1 - v else v, rest);
    case Str(s) => StrPeek(s, desc, rest);
    case Dec(d) => DecPeek(d, desc, rest);
    case Bits(b) => BitsPeek(b, desc, rest);
    case Float(u) => FloatPeek(u, desc, rest);
    case _ => CompoundPeek(x, desc, rest);
  }

  /** PeekLength reads the encoder's output length off any encoded datum. */
  lemma PeekLengthExact(c: Column, x: Datum, rest: bytes)
    requires Fits(c.ty, x)
    ensures var e := EncodeDatum(x, c.desc);
            e != [] && PeekLength(e + rest) == Success(|e|) && (IsNull(e + rest) <==> x.Null?)
  {
    assert x.Null? ==> EncodeDatum(x, c.desc) == [if c.desc then ENCODED_NULL_DESC else ENCODED_NULL];
    assert x.NotNull? ==> EncodeDatum(x, c.desc) == [if c.desc then ENCODED_NOT_NULL_DESC else ENCODED_NOT_NULL];
    hide EncodeDatum, PeekLength;
    if !Bound(x) { ValueTag(x, c.desc, rest); }
    PeekValue(x, c.desc, rest);
  }

  /** DecomposeKeyTokens cuts a key exactly where the encoder put the column boundaries, and goes on
      with whatever follows. */
  lemma {:induction false} TokensAreColumns(schema: seq<Column>, row: seq<Datum>, more: bytes) returns (tokens: seq<bytes>, hasNull: bool)
    requires RowFits(schema, row)
    ensures Tokens(EncodeRow(schema, row) + more) ==
            match Tokens(more)
            case Failure(e) => Failure(e)
            case Success((ts, h)) => Success((tokens + ts, hasNull || h))
    ensures |tokens| == |row| && forall i :: 0 <= i < |row| ==> tokens[i] == EncodeDatum(row[i], schema[i].desc)
    ensures hasNull <==> Null in row
  {
    hide EncodeDatum, PeekLength, IsNull;
    if row == [] {
      tokens, hasNull := [], false;
      assert EncodeRow(schema, row) + more == more;
      assert forall ts: seq<bytes> :: [] + ts == ts;
    } else {
      var e, tail := EncodeDatum(row[0], schema[0].desc), EncodeRow(schema[1..], row[1..]) + more;
      var ts, h := TokensAreColumns(schema[1..], row[1..], more);
      PeekLengthExact(schema[0], row[0], tail);
      assert EncodeRow(schema, row) + more == e + tail;
      assert (e + tail)[..|e|] == e && (e + tail)[|e|..] == tail;
      tokens, hasNull := [e] + ts, row[0].Null? || h;
      assert Null in row <==> row[0] == Null || Null in row[1..];
      assert forall us: seq<bytes> :: [e] + (ts + us) == tokens + us;
    }
  }
}
