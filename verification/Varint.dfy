/** Length-prefixed integers (pkg/util/encoding/encoding.go, varint section). */
module Varint {
  import opened ByteStrings
  import opened GoInts

  const INT_MIN := 0x80
  const INT_ZERO := 136
  const INT_SMALL := 109
  const INT_MAX := 0xfd

  datatype Error =
    | Empty | Insufficient | InvalidLength | Overflow
    | MissingMarker | IndexPanic | MissingTerminator | MalformedEscape | UnknownEscape
    | UnknownTag | NoMantissa | BadDigit | BadBitCount
    | TooLarge | KeyNotString

  /** What a decoder returns: the unread rest of the buffer and the value, or an error. */
  datatype Decoded<+T> = Ok(rest: bytes, value: T) | Err(error: Error)

  datatype Result<+T> = Success(value: T) | Failure(error: Error)

  function Pow256(n: nat): (p: nat)
    ensures p > 0
  {
    if n == 0 then 1 else 256 * Pow256(n - 1)
  }

  lemma Pow256Values()
    ensures Pow256(0) == 1 && Pow256(1) == 0x100 && Pow256(2) == 0x1_0000
    ensures Pow256(3) == 0x100_0000 && Pow256(4) == 0x1_0000_0000 && Pow256(5) == 0x100_0000_0000
    ensures Pow256(6) == 0x1_0000_0000_0000 && Pow256(7) == 0x100_0000_0000_0000 && Pow256(8) == TWO64
  {
    assert Pow256(4) == 256 * Pow256(3);
    assert Pow256(6) == 256 * Pow256(5);
    assert Pow256(8) == 256 * Pow256(7);
  }

  lemma {:induction false} Pow256Monotone(m: nat, n: nat)
    requires m <= n
    ensures Pow256(m) <= Pow256(n)
    decreases n
  {
    if m < n { Pow256Monotone(m, n - 1); }
  }

  /** The low n bytes of v, most significant first: byte(v>>8*(n-1)), ..., byte(v). */
  function BigEndian(v: int, n: nat): (r: bytes)
    ensures |r| == n
    decreases n
  {
    if n == 0 then [] else BigEndian(v / 256, n - 1) + [(v % 256) as byte]
  }

  /** The unsigned value of a big-endian byte string. */
  function FromBigEndian(b: bytes): (v: nat)
    ensures v < Pow256(|b|)
  {
    if b == [] then 0 else FromBigEndian(b[..|b| - 1]) * 256 + b[|b| - 1] as int
  }

  lemma {:induction false} BigEndianRoundTrip(v: nat, n: nat)
    requires v < Pow256(n)
    ensures FromBigEndian(BigEndian(v, n)) == v
  {
    if n > 0 {
      BigEndianRoundTrip(v / 256, n - 1);
      assert BigEndian(v, n)[..n - 1] == BigEndian(v / 256, n - 1);
    }
  }

  lemma {:induction false} BigEndianOrder(v: nat, w: nat, n: nat)
    requires v < w < Pow256(n)
    ensures Before(BigEndian(v, n), BigEndian(w, n))
  {
    var p, q := BigEndian(v / 256, n - 1), BigEndian(w / 256, n - 1);
    if v / 256 < w / 256 {
      BigEndianOrder(v / 256, w / 256, n - 1);
      BeforeExtends(p, q, [(v % 256) as byte], [(w % 256) as byte]);
    } else {
      BeforeUnderPrefix(p, [(v % 256) as byte], [(w % 256) as byte]);
    }
  }

  /** Only the value modulo 256^n matters. */
  lemma {:induction false} BigEndianModulo(v: int, k: int, n: nat)
    ensures BigEndian(v + k * Pow256(n), n) == BigEndian(v, n)
    decreases n
  {
    if n > 0 {
      var m := k * Pow256(n - 1);
      assert k * Pow256(n) == 256 * m by {
        assert k * (256 * Pow256(n - 1)) == 256 * (k * Pow256(n - 1));
      }
      assert (v + 256 * m) / 256 == v / 256 + m && (v + 256 * m) % 256 == v % 256;
      BigEndianModulo(v / 256, k, n - 1);
    }
  }

  lemma {:induction false} BigEndianComplement(v: int, n: nat)
    ensures BigEndian(-1 - v, n) == Complement(BigEndian(v, n))
    decreases n
  {
    if n > 0 {
      assert (-1 - v) / 256 == -1 - v / 256 && (-1 - v) % 256 == 255 - v % 256;
      BigEndianComplement(v / 256, n - 1);
      ComplementConcat(BigEndian(v / 256, n - 1), [(v % 256) as byte]);
    }
  }

  // ---------------------------------------------------------------- encoders

  function EncodeUvarintAscending(v: uint64): bytes {
    if v <= INT_SMALL then [(INT_ZERO + v) as byte]
    else if v <= 0xff then [(INT_MAX - 7) as byte] + BigEndian(v, 1)
    else if v <= 0xffff then [(INT_MAX - 6) as byte] + BigEndian(v, 2)
    else if v <= 0xff_ffff then [(INT_MAX - 5) as byte] + BigEndian(v, 3)
    else if v <= 0xffff_ffff then [(INT_MAX - 4) as byte] + BigEndian(v, 4)
    else if v <= 0xff_ffff_ffff then [(INT_MAX - 3) as byte] + BigEndian(v, 5)
    else if v <= 0xffff_ffff_ffff then [(INT_MAX - 2) as byte] + BigEndian(v, 6)
    else if v <= 0xff_ffff_ffff_ffff then [(INT_MAX - 1) as byte] + BigEndian(v, 7)
    else [INT_MAX as byte] + BigEndian(v, 8)
  }

  function EncodeUvarintDescending(v: uint64): bytes {
    var w := TWO64 - 1 - v;
    if v == 0 then [(INT_MIN + 8) as byte]
    else if v <= 0xff then [(INT_MIN + 7) as byte] + BigEndian(w, 1)
    else if v <= 0xffff then [(INT_MIN + 6) as byte] + BigEndian(w, 2)
    else if v <= 0xff_ffff then [(INT_MIN + 5) as byte] + BigEndian(w, 3)
    else if v <= 0xffff_ffff then [(INT_MIN + 4) as byte] + BigEndian(w, 4)
    else if v <= 0xff_ffff_ffff then [(INT_MIN + 3) as byte] + BigEndian(w, 5)
    else if v <= 0xffff_ffff_ffff then [(INT_MIN + 2) as byte] + BigEndian(w, 6)
    else if v <= 0xff_ffff_ffff_ffff then [(INT_MIN + 1) as byte] + BigEndian(w, 7)
    else [INT_MIN as byte] + BigEndian(w, 8)
  }

  function EncodeVarintAscending(v: int64): bytes {
    if v < 0 then
      if v >= -0xff then [(INT_MIN + 7) as byte] + BigEndian(v, 1)
      else if v >= -0xffff then [(INT_MIN + 6) as byte] + BigEndian(v, 2)
      else if v >= -0xff_ffff then [(INT_MIN + 5) as byte] + BigEndian(v, 3)
      else if v >= -0xffff_ffff then [(INT_MIN + 4) as byte] + BigEndian(v, 4)
      else if v >= -0xff_ffff_ffff then [(INT_MIN + 3) as byte] + BigEndian(v, 5)
      else if v >= -0xffff_ffff_ffff then [(INT_MIN + 2) as byte] + BigEndian(v, 6)
      else if v >= -0xff_ffff_ffff_ffff then [(INT_MIN + 1) as byte] + BigEndian(v, 7)
      else [INT_MIN as byte] + BigEndian(v, 8)
    else EncodeUvarintAscending(v)
  }

  function EncodeVarintDescending(v: int64): bytes {
    EncodeVarintAscending(-1 - v)
  }

  /** highestByteIndex: halving search for the highest nonzero byte. */
  function HighestByteIndex(v: uint64): nat {
    var (v1, l1) := if v > 0xffff_ffff then (v / 0x1_0000_0000, 4) else (v, 0);
    var (v2, l2) := if v1 > 0xffff then (v1 / 0x1_0000, l1 + 2) else (v1, l1);
    if v2 > 0xff then l2 + 1 else l2
  }

  function EncLenUvarintAscending(v: uint64): nat {
    if v <= INT_SMALL then 1 else 2 + HighestByteIndex(v)
  }

  function EncLenUvarintDescending(v: uint64): nat {
    if v == 0 then 1 else 2 + HighestByteIndex(v)
  }

  // ---------------------------------------------------------------- decoders

  function DecodeUvarintAscending(b: bytes): Decoded<uint64> {
    if b == [] then Err(Empty)
    else
      var length := b[0] as int - INT_ZERO;
      var r := b[1..];
      // A tag below INT_ZERO gives a negative length, which Go converts to uint64.
      if length <= INT_SMALL then Ok(r, length % TWO64)
      else
        var n := length - INT_SMALL;
        if n > 8 then Err(InvalidLength)
        else if |r| < n then Err(Insufficient)
        else
          Pow256Monotone(n, 8);
          Pow256Values();
          Ok(r[n..], FromBigEndian(r[..n]))
  }

  function DecodeUvarintDescending(b: bytes): Decoded<uint64> {
    if b == [] then Err(Empty)
    else
      var n := INT_ZERO - b[0] as int;
      var r := b[1..];
      if n < 0 || n > 8 then Err(InvalidLength)
      else if |r| < n then Err(Insufficient)
      else
        Pow256Monotone(n, 8);
        Pow256Values();
        Ok(r[n..], FromBigEndian(Complement(r[..n])))
  }

  function DecodeVarintAscending(b: bytes): Decoded<int64> {
    if b == [] then Err(Empty)
    else
      var length := b[0] as int - INT_ZERO;
      if length < 0 then
        var n := -length;
        var r := b[1..];
        if |r| < n then Err(Insufficient)
        else Ok(r[n..], -1 - ToInt64(FromBigEndian(Complement(r[..n]))))
      else
        match DecodeUvarintAscending(b)
        case Err(e) => Err(e)
        case Ok(rest, v) => if v >= TWO63 then Err(Overflow) else Ok(rest, v)
  }

  function DecodeVarintDescending(b: bytes): Decoded<int64> {
    match DecodeVarintAscending(b)
    case Err(e) => Err(e)
    case Ok(rest, v) => Ok(rest, -1 - v)
  }

  /** getVarintLen: the encoded length, read off the tag. */
  function GetVarintLen(b: bytes): (r: Result<nat>)
    requires b != []
    ensures r.Success? ==> 1 <= r.value <= |b|
  {
    var length := b[0] as int - INT_ZERO;
    if 0 <= length <= INT_SMALL then Success(1)
    else
      var n := if length >= 0 then 1 + length - INT_SMALL else 1 - length;
      if n > |b| then Failure(Insufficient) else Success(n)
  }

  // ------------------------------------------------- the decoding loops

  lemma FromBigEndianStep(b: bytes, i: nat)
    requires i < |b|
    ensures FromBigEndian(b[..i + 1]) == FromBigEndian(b[..i]) * 256 + b[i] as int
  {
    assert b[..i + 1][..i] == b[..i];
  }

  /** The accumulation loop of DecodeUvarintAscending and DecodeUvarintDescending. */
  method AccumulateUint64(b: bytes) returns (v: uint64)
    requires |b| <= 8
    ensures v == FromBigEndian(b)
  {
    v := 0;
    Pow256Values();
    for i := 0 to |b|
      invariant v == FromBigEndian(b[..i])
    {
      FromBigEndianStep(b, i);
      Pow256Monotone(i + 1, 8);
      v := (v * 256) % TWO64 + b[i] as int;
    }
    assert b[..|b|] == b;
  }

  lemma ToInt64Small(x: int)
    requires 0 <= x < TWO63
    ensures ToInt64(x) == x
  {
  }

  lemma ToInt64Step(x: int, t: byte)
    ensures ToInt64(ToInt64(x) * 256 + t as int) == ToInt64(x * 256 + t as int)
  {
    var k := (x - ToInt64(x)) / TWO64;
    assert x == ToInt64(x) + k * TWO64;
    ModuloMultiple(ToInt64(x) * 256 + t as int, k * 256);
  }

  lemma ModuloMultiple(x: int, k: int)
    ensures (x + k * TWO64) % TWO64 == x % TWO64
  {
    var q, r := x / TWO64, x % TWO64;
    assert x + k * TWO64 == (q + k) * TWO64 + r;
  }

  /** The loop of DecodeVarintAscending: complemented bytes shifted into an int64. */
  method AccumulateInt64(b: bytes) returns (v: int64)
    ensures v == ToInt64(FromBigEndian(Complement(b)))
  {
    v := 0;
    for i := 0 to |b|
      invariant v == ToInt64(FromBigEndian(Complement(b)[..i]))
    {
      FromBigEndianStep(Complement(b), i);
      ToInt64Step(FromBigEndian(Complement(b)[..i]), 255 - b[i]);
      v := ToInt64(v * 256 + (255 - b[i]) as int);
    }
    assert Complement(b)[..|b|] == Complement(b);
  }

  // ---------------------------------------------------------------- theorems

  /** The payload width and the range that selects it. */
  ghost function Width(v: uint64): (n: nat)
    ensures n <= 8 && v < Pow256(n) && (n > 0 ==> Pow256(n - 1) <= v)
  {
    Pow256Values();
    if v < 1 then 0 else if v < 0x100 then 1 else if v < 0x1_0000 then 2 else if v < 0x100_0000 then 3
    else if v < 0x1_0000_0000 then 4 else if v < 0x100_0000_0000 then 5
    else if v < 0x1_0000_0000_0000 then 6 else if v < 0x100_0000_0000_0000 then 7 else 8
  }

  lemma WidthMonotone(v: uint64, w: uint64)
    requires v <= w
    ensures Width(v) <= Width(w)
  {
    forall m: nat, n: nat | m <= n ensures Pow256(m) <= Pow256(n) { Pow256Monotone(m, n); }
  }

  lemma UvarintAscendingForm(v: uint64)
    ensures EncodeUvarintAscending(v) ==
            if v <= INT_SMALL then [(INT_ZERO + v) as byte] else [(INT_ZERO + INT_SMALL + Width(v)) as byte] + BigEndian(v, Width(v))
  {
  }

  lemma UvarintDescendingForm(v: uint64)
    ensures EncodeUvarintDescending(v) == [(INT_ZERO - Width(v)) as byte] + Complement(BigEndian(v, Width(v)))
  {
    InvertedPayload(v, Width(v));
  }

  lemma InvertedPayload(v: uint64, n: nat)
    requires n <= 8
    ensures BigEndian(TWO64 - 1 - v, n) == Complement(BigEndian(v, n))
  {
    var k := Pow256(8 - n);
    assert k * Pow256(n) == TWO64 by { Pow256Values(); }
    BigEndianComplement(v, n);
    BigEndianModulo(-1 - v, k, n);
  }

  /** Ascending uvarints: smaller values differ from larger ones at a smaller byte. */
  lemma UvarintAscendingOrder(v: uint64, w: uint64)
    requires v < w
    ensures Before(EncodeUvarintAscending(v), EncodeUvarintAscending(w))
  {
    UvarintAscendingForm(v);
    UvarintAscendingForm(w);
    WidthMonotone(v, w);
    if v > INT_SMALL && Width(v) == Width(w) {
      BigEndianOrder(v, w, Width(v));
      BeforeUnderPrefix([(INT_ZERO + INT_SMALL + Width(v)) as byte], BigEndian(v, Width(v)), BigEndian(w, Width(w)));
    }
  }

  lemma UvarintDescendingOrder(v: uint64, w: uint64)
    requires v < w
    ensures Before(EncodeUvarintDescending(w), EncodeUvarintDescending(v))
  {
    UvarintDescendingForm(v);
    UvarintDescendingForm(w);
    WidthMonotone(v, w);
    var n := Width(v);
    if n == Width(w) {
      BigEndianOrder(v, w, n);
      ComplementReverses(BigEndian(w, n), BigEndian(v, n));
      BeforeUnderPrefix([(INT_ZERO - n) as byte], Complement(BigEndian(w, n)), Complement(BigEndian(v, n)));
    }
  }

  lemma UvarintAscendingRoundTrip(v: uint64, rest: bytes)
    ensures DecodeUvarintAscending(EncodeUvarintAscending(v) + rest) == Ok(rest, v)
  {
    UvarintAscendingForm(v);
    if v > INT_SMALL {
      var p := BigEndian(v, Width(v));
      BigEndianRoundTrip(v, Width(v));
      assert (EncodeUvarintAscending(v) + rest)[1..] == p + rest;
      assert (p + rest)[..Width(v)] == p && (p + rest)[Width(v)..] == rest;
    } else {
      assert ([(INT_ZERO + v) as byte] + rest)[1..] == rest;
    }
  }

  lemma UvarintDescendingRoundTrip(v: uint64, rest: bytes)
    ensures DecodeUvarintDescending(EncodeUvarintDescending(v) + rest) == Ok(rest, v)
  {
    hide BigEndian, FromBigEndian, Pow256, Complement, EncodeUvarintDescending;
    UvarintDescendingForm(v);
    var n := Width(v);
    var p := Complement(BigEndian(v, n));
    BigEndianRoundTrip(v, n);
    ComplementTwice(BigEndian(v, n));
    assert (EncodeUvarintDescending(v) + rest)[1..] == p + rest;
    assert (p + rest)[..n] == p && (p + rest)[n..] == rest;
  }

  /** A negative varint is the complemented payload of its ones complement. */
  lemma NegativeForm(v: int64, n: nat)
    requires v < 0 && n == Width(0 - v)
    ensures EncodeVarintAscending(v) == [(INT_ZERO - n) as byte] + Complement(BigEndian(-1 - v, n))
    ensures 1 <= n && -1 - v < Pow256(n)
  {
    BigEndianComplement(-1 - v, n);
    var w: int := v;
    assert -1 - (-1 - w) == w;
  }

  /** Ascending varints order exactly as the signed integers do. */
  lemma VarintAscendingOrder(v: int64, w: int64)
    requires v < w
    ensures Before(EncodeVarintAscending(v), EncodeVarintAscending(w))
  {
    if v >= 0 {
      UvarintAscendingOrder(v, w);
    } else {
      var n := Width(0 - v);
      NegativeForm(v, n);
      if w >= 0 {
        UvarintAscendingForm(w);
      } else {
        var m := Width(0 - w);
        NegativeForm(w, m);
        WidthMonotone(0 - w, 0 - v);
        if m == n {
          var p, q := BigEndian(-1 - v, n), BigEndian(-1 - w, n);
          BigEndianOrder(-1 - w, -1 - v, n);
          ComplementReverses(p, q);
          BeforeUnderPrefix([(INT_ZERO - n) as byte], Complement(p), Complement(q));
        }
      }
    }
  }

  lemma VarintDescendingOrder(v: int64, w: int64)
    requires v < w
    ensures Before(EncodeVarintDescending(w), EncodeVarintDescending(v))
  {
    VarintAscendingOrder(-1 - w, -1 - v);
  }

  /** Decoding returns the value and leaves whatever follows untouched. */
  lemma VarintAscendingRoundTrip(v: int64, rest: bytes)
    ensures DecodeVarintAscending(EncodeVarintAscending(v) + rest) == Ok(rest, v)
  {
    if v < 0 {
      var n := Width(0 - v);
      NegativeForm(v, n);
      NegativeRoundTrip(v, n, BigEndian(-1 - v, n), rest);
    } else {
      UvarintAscendingRoundTrip(v, rest);
      UvarintAscendingForm(v);
    }
  }

  lemma NegativeRoundTrip(v: int64, n: nat, p: bytes, rest: bytes)
    requires v < 0 && 1 <= n <= 8 && -1 - v < Pow256(n) && p == BigEndian(-1 - v, n)
    ensures DecodeVarintAscending([(INT_ZERO - n) as byte] + Complement(p) + rest) == Ok(rest, v)
  {
    hide BigEndian, FromBigEndian, Pow256, Complement;
    var b := [(INT_ZERO - n) as byte] + Complement(p) + rest;
    var x: int := -1 - v;
    BigEndianRoundTrip(x, n);
    ComplementTwice(p);
    assert b[1..][..n] == Complement(p) && b[1..][n..] == rest;
    assert b[0] as int == INT_ZERO - n;
    ToInt64Small(x);
  }

  lemma VarintDescendingRoundTrip(v: int64, rest: bytes)
    ensures DecodeVarintDescending(EncodeVarintDescending(v) + rest) == Ok(rest, v)
  {
    VarintAscendingRoundTrip(-1 - v, rest);
  }

  /** getVarintLen sees the encoder's length, whatever follows, in both directions. */
  lemma UvarintLength(v: uint64, rest: bytes)
    ensures forall e :: e == EncodeUvarintAscending(v) || e == EncodeUvarintDescending(v) ==>
              e != [] && GetVarintLen(e + rest) == Success(|e|) && INT_MIN <= e[0] as int <= INT_MAX
  {
    UvarintAscendingForm(v);
    UvarintDescendingForm(v);
  }

  lemma VarintLength(v: int64, rest: bytes)
    ensures var e := EncodeVarintAscending(v);
            e != [] && GetVarintLen(e + rest) == Success(|e|) && INT_MIN <= e[0] as int <= INT_MAX
    ensures var e := EncodeVarintDescending(v);
            e != [] && GetVarintLen(e + rest) == Success(|e|) && INT_MIN <= e[0] as int <= INT_MAX
  {
    var w: int64 := -1 - v;
    if v < 0 { UvarintLength(w, rest); NegativeLength(v, rest); }
    else { UvarintLength(v, rest); NegativeLength(w, rest); }
  }

  lemma NegativeLength(v: int64, rest: bytes)
    requires v < 0
    ensures var e := EncodeVarintAscending(v);
            e != [] && GetVarintLen(e + rest) == Success(|e|) && INT_MIN <= e[0] as int <= INT_MAX
  {
    NegativeForm(v, Width(0 - v));
  }

  /** EncLenUvarint* predict the encoders' lengths without encoding. */
  lemma EncLenIsLength(v: uint64)
    ensures EncLenUvarintAscending(v) == |EncodeUvarintAscending(v)|
    ensures EncLenUvarintDescending(v) == |EncodeUvarintDescending(v)|
  {
    UvarintAscendingForm(v);
    UvarintDescendingForm(v);
    Pow256Values();
  }
}
