/** The order-preserving encoding of floats (pkg/util/encoding/float.go), on their 64 IEEE bits. */
module KeyFloat {
  import opened ByteStrings
  import opened GoInts
  import opened Bitwise
  import opened Varint

  const FLOAT_NAN: byte := 2
  const FLOAT_NEG: byte := 3
  const FLOAT_ZERO: byte := 4
  const FLOAT_POS: byte := 5
  const FLOAT_NAN_DESC: byte := 6
  const INFINITY_BITS := 0x7FF0_0000_0000_0000
  const GO_NAN: uint64 := 0x7FF8_0000_0000_0001
  const TWO52 := 0x10_0000_0000_0000

  // ---------------------------------------------------------------- what the bits mean

  predicate Negative(u: uint64) {
    u >= TWO63
  }

  /** The bits behind the sign. */
  function Magnitude(u: uint64): nat {
    if Negative(u) then u - TWO63 else u
  }

  predicate IsNaN(u: uint64) {
    Magnitude(u) > INFINITY_BITS
  }

  predicate IsZero(u: uint64) {
    Magnitude(u) == 0
  }

  /** Flipping the sign bit. */
  function Negated(u: uint64): uint64 {
    if Negative(u) then u - TWO63 else u + TWO63
  }

  /** The value with exponent and fraction bits m, in units of the smallest positive float;
      infinity comes out above every finite value. */
  function Scaled(m: nat): nat {
    var exponent, fraction := m / TWO52, m % TWO52;
    if exponent == 0 then fraction else (TWO52 + fraction) * Pow2(exponent - 1)
  }

  function Number(u: uint64): int {
    var n: int := Scaled(Magnitude(u));
    if Negative(u) then -n else n
  }

  /** NaN comes before every number. */
  predicate FloatLess(u: uint64, v: uint64) {
    !IsNaN(v) && (IsNaN(u) || Number(u) < Number(v))
  }

  predicate SameFloat(u: uint64, v: uint64) {
    if IsNaN(u) then IsNaN(v) else !IsNaN(v) && Number(u) == Number(v)
  }

  /** NaN has all exponent bits set and some fraction bit; zero has none of either. */
  lemma SpecialBits(u: uint64)
    ensures var exponent, fraction := u / TWO52 % 2048, u % TWO52;
            (IsNaN(u) <==> exponent == 2047 && fraction != 0) && (IsZero(u) <==> exponent == 0 && fraction == 0)
  {
  }

  // ---------------------------------------------------------------- the codec

  function EncodeFloatAscending(u: uint64): bytes {
    if IsNaN(u) then [FLOAT_NAN]
    else if IsZero(u) then [FLOAT_ZERO]
    else if Negative(u) then [FLOAT_NEG] + BigEndian(TWO64 - 1 - u, 8)
    else [FLOAT_POS] + BigEndian(u, 8)
  }

  function EncodeFloatDescending(u: uint64): bytes {
    if IsNaN(u) then [FLOAT_NAN_DESC] else EncodeFloatAscending(Negated(u))
  }

  function EncodeFloat(u: uint64, desc: bool): bytes {
    if desc then EncodeFloatDescending(u) else EncodeFloatAscending(u)
  }

  function DecodeUint64(b: bytes): Decoded<uint64> {
    if |b| < 8 then Err(Insufficient)
    else
      Pow256Values();
      Ok(b[8..], FromBigEndian(b[..8]))
  }

  function DecodeFloatAscending(b: bytes): Decoded<uint64>
    requires b != []
  {
    if b[0] == FLOAT_NAN || b[0] == FLOAT_NAN_DESC then Ok(b[1..], GO_NAN)
    else if b[0] == FLOAT_NEG then
      match DecodeUint64(b[1..])
      case Err(e) => Err(e)
      case Ok(rest, u) => Ok(rest, TWO64 - 1 - u)
    else if b[0] == FLOAT_ZERO then Ok(b[1..], 0)
    else if b[0] == FLOAT_POS then DecodeUint64(b[1..])
    else Err(MissingMarker)
  }

  function DecodeFloat(b: bytes, desc: bool): Decoded<uint64>
    requires b != []
  {
    match DecodeFloatAscending(b)
    case Err(e) => Err(e)
    case Ok(rest, u) => Ok(rest, if desc then Negated(u) else u)
  }

  // ---------------------------------------------------------------- order

  lemma {:induction false} Pow2Grows(m: nat, n: nat)
    requires m <= n
    ensures Pow2(m) <= Pow2(n)
  {
    if m < n { Pow2Grows(m, n - 1); }
  }

  /** Larger bits mean larger values. */
  lemma ScaledOrder(m: nat, n: nat)
    requires m < n
    ensures Scaled(m) < Scaled(n)
  {
    var e, f := m / TWO52, n / TWO52;
    if e == f {
      if e > 0 { Widens(TWO52 + m % TWO52, TWO52 + n % TWO52, Pow2(e - 1)); }
    } else {
      Pow2Grows(e, f - 1);
      if e == 0 {
        Widens(1, Pow2(f - 1) + 1, TWO52);
        assert Scaled(n) >= TWO52 * Pow2(f - 1) by { Spread(TWO52, n % TWO52, Pow2(f - 1)); }
      } else {
        assert Pow2(e) == 2 * Pow2(e - 1);
        Widens(TWO52 + m % TWO52, 2 * TWO52, Pow2(e - 1));
        assert Scaled(m) < TWO52 * Pow2(e) by { assert 2 * TWO52 * Pow2(e - 1) == TWO52 * Pow2(e); }
        assert TWO52 * Pow2(e) <= TWO52 * Pow2(f - 1);
        assert Scaled(n) >= TWO52 * Pow2(f - 1) by { Spread(TWO52, n % TWO52, Pow2(f - 1)); }
      }
    }
  }

  lemma Widens(a: nat, b: nat, p: nat)
    requires a < b && p > 0
    ensures a * p < b * p
  {
  }

  lemma Spread(a: nat, b: nat, p: nat)
    ensures (a + b) * p == a * p + b * p && b * p >= 0
  {
  }

  lemma ScaledZero()
    ensures Scaled(0) == 0
  {
  }

  /** Numbers compare as sign and magnitude. */
  lemma NumberOrder(u: uint64, v: uint64)
    ensures Number(u) < Number(v) <==>
      if Negative(u) then (if Negative(v) then v < u else !(IsZero(u) && IsZero(v)))
      else !Negative(v) && u < v
  {
    hide Scaled;
    var m, n := Magnitude(u), Magnitude(v);
    ScaledZero();
    if m > 0 { ScaledOrder(0, m); }
    if n > 0 { ScaledOrder(0, n); }
    if m < n { ScaledOrder(m, n); }
    if n < m { ScaledOrder(n, m); }
  }

  lemma NegatedNumber(u: uint64)
    ensures Number(Negated(u)) == -Number(u) && (IsNaN(Negated(u)) <==> IsNaN(u))
  {
  }

  lemma FirstBytes(a: bytes, b: bytes)
    requires a != [] && b != []
    ensures a[0] < b[0] ==> Before(a, b)
  {
  }

  /** The ascending encoding is monotone and prefix-free. */
  lemma AscendingOrder(u: uint64, v: uint64)
    requires FloatLess(u, v)
    ensures Before(EncodeFloatAscending(u), EncodeFloatAscending(v))
  {
    hide Number, Before, BigEndian;
    NumberOrder(u, v);
    Pow256Values();
    FirstBytes(EncodeFloatAscending(u), EncodeFloatAscending(v));
    var a, b := EncodeFloatAscending(u), EncodeFloatAscending(v);
    if a[0] == b[0] {
      if Negative(u) {
        BigEndianOrder(TWO64 - 1 - u, TWO64 - 1 - v, 8);
        BeforeUnderPrefix([FLOAT_NEG], BigEndian(TWO64 - 1 - u, 8), BigEndian(TWO64 - 1 - v, 8));
      } else {
        BigEndianOrder(u, v, 8);
        BeforeUnderPrefix([FLOAT_POS], BigEndian(u, 8), BigEndian(v, 8));
      }
    }
  }

  /** Byte order is numeric order with NaN first, reversed in the descending form. */
  lemma FloatOrder(u: uint64, v: uint64, desc: bool)
    requires FloatLess(u, v)
    ensures if desc then Before(EncodeFloat(v, desc), EncodeFloat(u, desc)) else Before(EncodeFloat(u, desc), EncodeFloat(v, desc))
  {
    hide EncodeFloatAscending;
    if desc {
      NegatedNumber(u);
      NegatedNumber(v);
      if IsNaN(u) { NumberTag(Negated(v)); } else { AscendingOrder(Negated(v), Negated(u)); }
    } else {
      AscendingOrder(u, v);
    }
  }

  lemma NumberTag(u: uint64)
    requires !IsNaN(u)
    ensures var b := EncodeFloatAscending(u); b != [] && FLOAT_NAN < b[0] < FLOAT_NAN_DESC
  {
  }

  /** Any two floats are ordered or the same, and the same floats are encoded alike. */
  lemma FloatTotal(u: uint64, v: uint64, desc: bool)
    ensures FloatLess(u, v) || SameFloat(u, v) || FloatLess(v, u)
    ensures SameFloat(u, v) ==> EncodeFloat(u, desc) == EncodeFloat(v, desc)
  {
    hide Number, BigEndian;
    NumberOrder(u, v);
    NumberOrder(v, u);
  }

  // ---------------------------------------------------------------- round trip and length

  /** What comes back: the same bits, but one NaN and one zero. */
  function StoredFloat(u: uint64, desc: bool): uint64 {
    var v := if IsNaN(u) then GO_NAN else if IsZero(u) then 0 else if desc then Negated(u) else u;
    if desc then Negated(v) else v
  }

  lemma BitsRoundTrip(u: uint64, tag: byte, rest: bytes)
    ensures var b := [tag] + BigEndian(u, 8) + rest; b[0] == tag && DecodeUint64(b[1..]) == Ok(rest, u)
  {
    Pow256Values();
    BigEndianRoundTrip(u, 8);
    var b := [tag] + BigEndian(u, 8) + rest;
    assert b[1..] == BigEndian(u, 8) + rest;
    assert b[1..][..8] == BigEndian(u, 8) && b[1..][8..] == rest;
  }

  lemma AscendingRoundTrip(u: uint64, rest: bytes)
    ensures var b := EncodeFloatAscending(u) + rest;
            b != [] && DecodeFloatAscending(b) == Ok(rest, if IsNaN(u) then GO_NAN else if IsZero(u) then 0 else u)
  {
    hide DecodeUint64, BigEndian;
    if IsNaN(u) || IsZero(u) {
      assert (EncodeFloatAscending(u) + rest)[1..] == rest;
    } else if Negative(u) {
      BitsRoundTrip(TWO64 - 1 - u, FLOAT_NEG, rest);
    } else {
      BitsRoundTrip(u, FLOAT_POS, rest);
    }
  }

  /** A float reads back as the same number, followed by the untouched rest. */
  lemma FloatRoundTrip(u: uint64, desc: bool, rest: bytes)
    ensures var b := EncodeFloat(u, desc) + rest; b != [] && DecodeFloat(b, desc) == Ok(rest, StoredFloat(u, desc))
    ensures SameFloat(u, StoredFloat(u, desc))
    ensures !IsNaN(u) && !IsZero(u) ==> StoredFloat(u, desc) == u
  {
    hide EncodeFloatAscending, DecodeFloatAscending;
    NegatedNumber(u);
    if desc && IsNaN(u) { NaNDescends(rest); } else { AscendingRoundTrip(if desc then Negated(u) else u, rest); }
  }

  lemma NaNDescends(rest: bytes)
    ensures DecodeFloatAscending([FLOAT_NAN_DESC] + rest) == Ok(rest, GO_NAN)
  {
    assert ([FLOAT_NAN_DESC] + rest)[1..] == rest;
  }
}
