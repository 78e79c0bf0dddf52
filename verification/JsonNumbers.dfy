/** JSON numbers in the binary form: length-prefixed nonsorting decimals
    (pkg/util/encoding/decimal.go and EncodeUntaggedDecimalValue in encoding.go). */
module JsonNumbers {
  import opened ByteStrings
  import opened GoInts
  import opened Varint
  import opened DecimalValues
  import opened KeyDecimal

  /** The minimal big-endian bytes of a natural number, none for zero. */
  function CoeffBytes(n: nat): bytes {
    if n == 0 then [] else CoeffBytes(n / 256) + [(n % 256) as byte]
  }

  lemma {:induction false} CoeffRoundTrip(n: nat)
    ensures FromBigEndian(CoeffBytes(n)) == n
  {
    if n > 0 {
      CoeffRoundTrip(n / 256);
      var b := CoeffBytes(n);
      assert b[..|b| - 1] == CoeffBytes(n / 256);
    }
  }

  /** EncodeNonsortingDecimal: sign and exponent class in the tag, then |exponent|, then the coefficient. */
  function EncodeNonsorting(d: Decimal): bytes {
    match d
    case NaN => [DECIMAL_NAN]
    case Infinite(negative) => if negative then [DECIMAL_NEGATIVE_INFINITY] else [DECIMAL_INFINITY]
    case Finite(negative, coeff, exponent) =>
      if coeff == 0 && !negative && exponent == 0 then [DECIMAL_ZERO]
      else
        var e := |Digits(coeff)| + exponent;
        if e == 0 then [if negative then DECIMAL_NEG_MEDIUM else DECIMAL_POS_MEDIUM] + CoeffBytes(coeff)
        else if e > 0 then
          [if negative then DECIMAL_NEG_LARGE else DECIMAL_POS_LARGE] + (EncodeUvarintAscending(e % TWO64) + CoeffBytes(coeff))
        else
          [if negative then DECIMAL_NEG_SMALL else DECIMAL_POS_SMALL] + (EncodeUvarintAscending(-e % TWO64) + CoeffBytes(coeff))
  }

  /** DecodeIntoNonsortingDecimal; buf must be exactly the encoded number. */
  function DecodeNonsorting(buf: bytes): Result<Decimal> {
    if buf == [] then Failure(IndexPanic)
    else
      var tag, b := buf[0], buf[1..];
      if tag == DECIMAL_NAN then Success(NaN)
      else if tag == DECIMAL_NEGATIVE_INFINITY then Success(Infinite(true))
      else if tag == DECIMAL_INFINITY then Success(Infinite(false))
      else if tag == DECIMAL_ZERO then Success(Finite(false, 0, 0))
      else if tag == DECIMAL_NEG_MEDIUM || tag == DECIMAL_POS_MEDIUM then
        var coeff := FromBigEndian(b);
        Success(Finite(tag == DECIMAL_NEG_MEDIUM, coeff, ToInt32(-|Digits(coeff)|)))
      else if tag in {DECIMAL_NEG_LARGE, DECIMAL_NEG_SMALL, DECIMAL_POS_SMALL, DECIMAL_POS_LARGE} then
        match DecodeUvarintAscending(b)
        case Err(e) => Failure(e)
        case Ok(digits, x) =>
          var e := ToInt64(if tag == DECIMAL_NEG_SMALL || tag == DECIMAL_POS_SMALL then -(x as int) else x);
          var coeff := FromBigEndian(digits);
          Success(Finite(tag == DECIMAL_NEG_LARGE || tag == DECIMAL_NEG_SMALL, coeff, ToInt32(e - |Digits(coeff)|)))
      else Failure(UnknownTag)
  }

  /** binary.PutUvarint. */
  function PutUvarint(x: nat): bytes {
    if x < 128 then [x as byte] else [(x % 128 + 128) as byte] + PutUvarint(x / 128)
  }

  /** binary.Uvarint from its i-th byte on; the value and the number of bytes read. */
  function Uvarint(b: bytes, i: nat): (r: Result<(nat, nat)>)
    ensures r.Success? ==> 1 <= r.value.1 <= |b|
    decreases |b|
  {
    if b == [] then Failure(Insufficient)
    else if i >= 10 || (i == 9 && 1 < b[0] < 128) then Failure(Overflow)
    else if b[0] < 128 then Success((b[0] as nat, 1))
    else
      match Uvarint(b[1..], i + 1)
      case Failure(e) => Failure(e)
      case Success((v, n)) => Success((b[0] as nat - 128 + 128 * v, n + 1))
  }

  function Pow128(n: nat): (p: nat)
    ensures p > 0
  {
    if n == 0 then 1 else 128 * Pow128(n - 1)
  }

  lemma {:induction false} UvarintRoundTrip(x: nat, i: nat, rest: bytes)
    requires i <= 9 && x < 2 * Pow128(9 - i)
    ensures Uvarint(PutUvarint(x) + rest, i) == Success((x, |PutUvarint(x)|))
    decreases x
  {
    var b := PutUvarint(x) + rest;
    if x >= 128 {
      assert i < 9;
      UvarintRoundTrip(x / 128, i + 1, rest);
      assert b[1..] == PutUvarint(x / 128) + rest;
    }
  }

  /** EncodeUntaggedDecimalValue. */
  function EncodeNumber(d: Decimal): bytes {
    var e := EncodeNonsorting(d);
    PutUvarint(|e|) + e
  }

  /** DecodeUntaggedDecimalValue; slicing past the end panics in the source. */
  function DecodeNumber(b: bytes): (r: Decoded<Decimal>)
    ensures r.Ok? ==> |r.rest| <= |b|
  {
    match Uvarint(b, 0)
    case Failure(e) => Err(e)
    case Success((n, k)) =>
      var r := b[k..];
      if n > |r| then Err(IndexPanic)
      else
        match DecodeNonsorting(r[..n])
        case Failure(e) => Err(e)
        case Success(d) => Ok(r[n..], d)
  }

  /** A number of k coefficient bytes has at most 3k decimal digits. */
  lemma {:induction false} DigitsBound(n: nat, k: nat)
    requires k >= 1 && n < Pow256(k)
    ensures |Digits(n)| <= 3 * k
    decreases k
  {
    if n >= 1000 {
      assert Pow256(1) == 256;
      DigitsBound(n / 1000, k - 1);
      assert n / 10 / 10 / 10 == n / 1000;
      assert |Digits(n)| == 1 + |Digits(n / 10)| && |Digits(n / 10)| == 1 + |Digits(n / 10 / 10)|;
      assert |Digits(n / 10 / 10)| == 1 + |Digits(n / 10 / 10 / 10)|;
    } else if n >= 10 {
      assert |Digits(n)| == 1 + |Digits(n / 10)|;
      assert n >= 100 ==> |Digits(n / 10)| == 1 + |Digits(n / 10 / 10)|;
    }
  }

  lemma SmallExponents(d: Decimal)
    requires d.Finite? && |EncodeNonsorting(d)| <= 0x1000_0000
    ensures |Digits(d.coeff)| < 0x1_0000_0000
  {
    var c := CoeffBytes(d.coeff);
    CoeffRoundTrip(d.coeff);
    if d.coeff == 0 {
      assert |Digits(0)| == 1;
    } else {
      DigitsBound(d.coeff, |c|);
    }
  }

  lemma Fits32(x: int)
    requires -0x8000_0000 <= x < 0x8000_0000
    ensures ToInt32(x) == x
  {
  }

  lemma Fits64(x: int)
    requires -TWO63 < x < TWO63
    ensures ToInt64(x) == x && (x >= 0 ==> x % TWO64 == x)
  {
  }

  lemma TaggedDecodes(tag: byte, v: uint64, c: bytes)
    requires tag in {DECIMAL_NEG_LARGE, DECIMAL_NEG_SMALL, DECIMAL_POS_SMALL, DECIMAL_POS_LARGE}
    ensures var e := ToInt64(if tag == DECIMAL_NEG_SMALL || tag == DECIMAL_POS_SMALL then -(v as int) else v);
            DecodeNonsorting([tag] + (EncodeUvarintAscending(v) + c)) ==
            Success(Finite(tag == DECIMAL_NEG_LARGE || tag == DECIMAL_NEG_SMALL, FromBigEndian(c), ToInt32(e - |Digits(FromBigEndian(c))|)))
  {
    hide EncodeUvarintAscending, DecodeUvarintAscending, Digits, FromBigEndian, ToInt32, ToInt64;
    assert ([tag] + (EncodeUvarintAscending(v) + c))[1..] == EncodeUvarintAscending(v) + c;
    UvarintAscendingRoundTrip(v, c);
  }

  lemma MediumDecodes(tag: byte, c: bytes)
    requires tag == DECIMAL_NEG_MEDIUM || tag == DECIMAL_POS_MEDIUM
    ensures DecodeNonsorting([tag] + c) ==
            Success(Finite(tag == DECIMAL_NEG_MEDIUM, FromBigEndian(c), ToInt32(-|Digits(FromBigEndian(c))|)))
  {
    hide Digits, FromBigEndian, ToInt32;
    assert ([tag] + c)[1..] == c;
  }

  lemma NonsortingRoundTrip(d: Decimal)
    requires |EncodeNonsorting(d)| <= 0x1000_0000
    ensures DecodeNonsorting(EncodeNonsorting(d)) == Success(d)
  {
    if d.Finite? && !(d.coeff == 0 && !d.negative && d.exponent == 0) {
      FiniteRoundTrip(d);
    }
  }

  lemma FiniteRoundTrip(d: Decimal)
    requires d.Finite? && !(d.coeff == 0 && !d.negative && d.exponent == 0)
    requires |EncodeNonsorting(d)| <= 0x1000_0000
    ensures DecodeNonsorting(EncodeNonsorting(d)) == Success(d)
  {
    hide DecodeNonsorting, Digits, CoeffBytes, FromBigEndian, ToInt32, ToInt64, EncodeUvarintAscending;
    SmallExponents(d);
    CoeffRoundTrip(d.coeff);
    var n := |Digits(d.coeff)|;
    var e := n + d.exponent;
    Fits32(d.exponent);
    Fits64(e);
    Fits64(-e);
    var c := CoeffBytes(d.coeff);
    if e == 0 {
      MediumDecodes(if d.negative then DECIMAL_NEG_MEDIUM else DECIMAL_POS_MEDIUM, c);
    } else if e > 0 {
      TaggedDecodes(if d.negative then DECIMAL_NEG_LARGE else DECIMAL_POS_LARGE, e, c);
    } else {
      TaggedDecodes(if d.negative then DECIMAL_NEG_SMALL else DECIMAL_POS_SMALL, -e, c);
    }
  }

  /** Numbers survive exactly, sign of zero and trailing zeros included. */
  lemma NumberRoundTrip(d: Decimal, rest: bytes)
    requires |EncodeNumber(d)| <= 0x1000_0000
    ensures DecodeNumber(EncodeNumber(d) + rest) == Ok(rest, d)
  {
    var e := EncodeNonsorting(d);
    var p := PutUvarint(|e|);
    var b := EncodeNumber(d) + rest;
    NonsortingRoundTrip(d);
    assert Pow128(9) == 128 * Pow128(8) && Pow128(8) >= 0x1000_0000 by {
      assert Pow128(4) == 0x1000_0000 && Pow128(8) == 128 * Pow128(7) && Pow128(6) >= Pow128(4);
    }
    UvarintRoundTrip(|e|, 0, e + rest);
    hide EncodeNonsorting, DecodeNonsorting, PutUvarint, Uvarint;
    assert b == p + (e + rest);
    assert b[|p|..] == e + rest && (e + rest)[..|e|] == e && (e + rest)[|e|..] == rest;
  }
}
