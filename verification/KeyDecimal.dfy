/** The ordered decimal codec (pkg/util/encoding/decimal.go). */
module KeyDecimal {
  import opened ByteStrings
  import opened GoInts
  import opened Varint
  import opened DecimalValues

  const DECIMAL_NAN: byte := 24
  const DECIMAL_NEGATIVE_INFINITY: byte := 25
  const DECIMAL_NEG_LARGE: byte := 26
  const DECIMAL_NEG_MEDIUM: byte := 37
  const DECIMAL_NEG_SMALL: byte := 38
  const DECIMAL_ZERO: byte := 39
  const DECIMAL_POS_SMALL: byte := 40
  const DECIMAL_POS_MEDIUM: byte := 41
  const DECIMAL_POS_LARGE: byte := 52
  const DECIMAL_INFINITY: byte := 53
  const DECIMAL_NAN_DESC: byte := 54
  const DECIMAL_TERMINATOR: byte := 0x00

  /** apd.Decimal: (-1)^negative * coeff * 10^exponent, or one of the special forms. */
  datatype Decimal = NaN | Infinite(negative: bool) | Finite(negative: bool, coeff: nat, exponent: int32)

  /** The number a finite decimal denotes. */
  function Value(d: Decimal): real
    requires d.Finite?
  {
    var v := Times(d.coeff as real, Pow10(d.exponent));
    if d.negative then -v else v
  }

  /** The numeral fits a Go slice, so that exponents stay clear of int64's limits. */
  predicate Representable(d: Decimal) {
    d.Finite? ==> |Digits(d.coeff)| < 0x4000_0000_0000_0000
  }

  // ---------------------------------------------------------------- encoder

  function Exponent10(d: Decimal): int
    requires d.Finite?
  {
    d.exponent + |Digits(d.coeff)|
  }

  /** Half of e10 rounded up, written as the source does with truncating division. */
  function Exponent100(e10: int): int {
    if e10 >= 0 then (e10 + 1) / 2 else -((-e10) / 2)
  }

  /** The digits left after stripping trailing zeros and, for an even exponent, the leading zero. */
  function Significant(d: Decimal): seq<digit>
    requires d.Finite?
  {
    var t := StripZeros([0] + Digits(d.coeff));
    if 2 * Exponent100(Exponent10(d)) == Exponent10(d) && t != [] then t[1..] else t
  }

  function PadEven(t: seq<digit>): (r: seq<digit>)
    ensures |r| % 2 == 0
  {
    if |t| % 2 != 0 then t + [0] else t
  }

  /** Centimal digit X is the byte 2X+1, the last one 2X. */
  function Mantissa(x: seq<cent>): (m: bytes)
    ensures |m| == |x|
  {
    if x == [] then []
    else if |x| == 1 then [2 * x[0] as byte]
    else [2 * x[0] as byte + 1] + Mantissa(x[1..])
  }

  /** decimalEandM: base-100 exponent and centimal digits. */
  function EandM(d: Decimal): (int, seq<cent>)
    requires d.Finite?
  {
    (Exponent100(Exponent10(d)), Pairs(PadEven(Significant(d))))
  }

  /** encodeVarExpNumber. */
  function VarExpNumber(tag: byte, expAscending: bool, exp: uint64, m: bytes): bytes {
    [tag] + (if expAscending then EncodeUvarintAscending(exp) else EncodeUvarintDescending(exp)) + m + [DECIMAL_TERMINATOR]
  }

  /** encodeEandM with encodeSmallNumber, encodeMediumNumber and encodeLargeNumber. */
  function EncodeEandM(negative: bool, e: int, m: bytes): bytes
    requires -TWO63 < e < TWO63
  {
    if e < 0 then
      if negative then VarExpNumber(DECIMAL_NEG_SMALL, true, -e, Complement(m))
      else VarExpNumber(DECIMAL_POS_SMALL, false, -e, m)
    else if e <= 10 then
      if negative then [DECIMAL_NEG_MEDIUM - e as byte] + Complement(m) + [DECIMAL_TERMINATOR]
      else [DECIMAL_POS_MEDIUM + e as byte] + m + [DECIMAL_TERMINATOR]
    else
      if negative then VarExpNumber(DECIMAL_NEG_LARGE, false, e, Complement(m))
      else VarExpNumber(DECIMAL_POS_LARGE, true, e, m)
  }

  lemma ExponentInRange(d: Decimal)
    requires d.Finite? && Representable(d)
    ensures -TWO63 < Exponent100(Exponent10(d)) < TWO63
  {
  }

  /** encodeDecimal; invert is false for ascending and true for descending columns. */
  function EncodeDecimal(d: Decimal, invert: bool): bytes
    requires Representable(d)
  {
    match d
    case NaN => if invert then [DECIMAL_NAN_DESC] else [DECIMAL_NAN]
    case Infinite(negative) => if negative != invert then [DECIMAL_NEGATIVE_INFINITY] else [DECIMAL_INFINITY]
    case Finite(negative, coeff, _) =>
      if coeff == 0 then [DECIMAL_ZERO]
      else
        var (e, x) := EandM(d);
        ExponentInRange(d);
        EncodeEandM(negative != invert, e, Mantissa(x))
  }

  // ---------------------------------------------------------------- decoder

  /** makeDecimalFromMandE. */
  function MakeDecimal(negative: bool, e: int, m: bytes): Result<Decimal> {
    if m == [] then Failure(NoMantissa)
    else if exists i :: 0 <= i < |m| && m[i] / 2 > 99 then Failure(BadDigit)
    else
      var t := Unpairs(Halves(m));
      var b := if t[|t| - 1] == 0 then t[..|t| - 1] else t;
      Success(Finite(negative, Numeral(b), ToInt32(2 * e - |b|)))
  }

  function Halves(m: bytes): (x: seq<cent>)
    requires forall i :: 0 <= i < |m| ==> m[i] / 2 <= 99
    ensures |x| == |m| && forall i :: 0 <= i < |m| ==> x[i] as int == m[i] as int / 2
  {
    seq(|m|, i requires 0 <= i < |m| => (m[i] / 2) as cent)
  }

  /** The shared tail of the decode*Number functions: r starts at the mantissa. */
  function FinishNumber(complemented: bool, negative: bool, e: int, r: bytes): Decoded<Decimal> {
    var idx := IndexByte(r, DECIMAL_TERMINATOR);
    if idx == |r| then Err(MissingTerminator)
    else
      match MakeDecimal(negative, e, if complemented then Complement(r[..idx]) else r[..idx])
      case Failure(error) => Err(error)
      case Success(d) => Ok(r[idx + 1..], d)
  }

  function DecodeVarExp(expAscending: bool, b: bytes): Decoded<uint64> {
    if expAscending then DecodeUvarintAscending(b) else DecodeUvarintDescending(b)
  }

  /** decodeDecimal. The source indexes buf[0] without a length test. */
  function DecodeDecimal(buf: bytes, invert: bool): Decoded<Decimal>
    requires buf != []
  {
    var tag, r := buf[0], buf[1..];
    if tag == DECIMAL_NAN || tag == DECIMAL_NAN_DESC then Ok(r, NaN)
    else if tag == DECIMAL_INFINITY then Ok(r, Infinite(invert))
    else if tag == DECIMAL_NEGATIVE_INFINITY then Ok(r, Infinite(!invert))
    else if tag == DECIMAL_ZERO then Ok(r, Finite(false, 0, 0))
    else if tag == DECIMAL_NEG_LARGE || tag == DECIMAL_POS_LARGE then
      (match DecodeVarExp(tag == DECIMAL_POS_LARGE, r)
       case Err(error) => Err(error)
       case Ok(r2, ex) => FinishNumber(tag == DECIMAL_NEG_LARGE, (tag == DECIMAL_NEG_LARGE) != invert, ToInt64(ex), r2))
    else if tag == DECIMAL_NEG_SMALL || tag == DECIMAL_POS_SMALL then
      (match DecodeVarExp(tag == DECIMAL_NEG_SMALL, r)
       case Err(error) => Err(error)
       case Ok(r2, ex) => FinishNumber(tag == DECIMAL_NEG_SMALL, (tag == DECIMAL_NEG_SMALL) != invert, ToInt64(-(ex as int)), r2))
    else if DECIMAL_NEG_LARGE < tag <= DECIMAL_NEG_MEDIUM then
      FinishNumber(true, !invert, (DECIMAL_NEG_MEDIUM - tag) as int, r)
    else if DECIMAL_POS_MEDIUM <= tag < DECIMAL_POS_LARGE then
      FinishNumber(false, invert, (tag - DECIMAL_POS_MEDIUM) as int, r)
    else Err(UnknownTag)
  }

  /** getDecimalLen; the tag must be a decimal tag, or the source panics. */
  function GetDecimalLen(b: bytes): (r: Result<nat>)
    requires b != [] && DECIMAL_NAN <= b[0] <= DECIMAL_NAN_DESC
    ensures r.Success? ==> 1 <= r.value <= |b|
  {
    var tag := b[0];
    if tag in {DECIMAL_NAN, DECIMAL_NEGATIVE_INFINITY, DECIMAL_NAN_DESC, DECIMAL_INFINITY, DECIMAL_ZERO} then Success(1)
    else if tag in {DECIMAL_NEG_LARGE, DECIMAL_NEG_SMALL, DECIMAL_POS_LARGE, DECIMAL_POS_SMALL} then
      if |b| == 1 then Failure(IndexPanic)
      else
        match GetVarintLen(b[1..])
        case Failure(error) => Failure(error)
        case Success(l) => TerminatorLen(b, 1 + l)
    else TerminatorLen(b, 1)
  }

  function TerminatorLen(b: bytes, p: nat): (r: Result<nat>)
    requires p <= |b|
    ensures r.Success? ==> p < r.value <= |b|
  {
    var idx := IndexByte(b[p..], DECIMAL_TERMINATOR);
    if idx == |b| - p then Failure(MissingTerminator) else Success(p + idx + 1)
  }

  // ------------------------------------------------- canonical form

  lemma {:induction false} StripUnderZero(t: seq<digit>)
    requires StripZeros(t) != []
    ensures StripZeros([0] + t) == [0] + StripZeros(t)
  {
    var u := [0] + t;
    if t[|t| - 1] == 0 {
      assert u[..|u| - 1] == [0] + t[..|t| - 1];
      StripUnderZero(t[..|t| - 1]);
    }
  }

  /** What Significant and the exponent mean: 0.Significant * 100^e is the magnitude. */
  lemma SignificantForm(d: Decimal)
    requires d.Finite? && d.coeff > 0
    ensures var u, e := Significant(d), Exponent100(Exponent10(d));
            var s := StripZeros(Digits(d.coeff));
            && s != [] && s[0] != 0 && s[|s| - 1] != 0
            && ((u == s && 2 * e == Exponent10(d)) || (u == [0] + s && 2 * e == Exponent10(d) + 1))
            && 2 * e - |u| == d.exponent + TrailingZeros(d.coeff)
  {
    StripLength(d.coeff);
    StripUnderZero(Digits(d.coeff));
    var s := StripZeros(Digits(d.coeff));
    assert ([0] + s)[1..] == s;
  }

  lemma SignificantValue(d: Decimal)
    requires d.Finite? && d.coeff > 0
    ensures Times(d.coeff as real, Pow10(d.exponent)) == Times(Frac10(Significant(d)), Pow10(2 * Exponent100(Exponent10(d))))
  {
    var t, u, e10 := Digits(d.coeff), Significant(d), Exponent10(d);
    var s := StripZeros(t);
    var e := Exponent100(e10);
    SignificantForm(d);
    StripKeepsFrac(t);
    assert u == [0] + s ==> Frac10(u) == Frac10(s) / 10.0 by { LeadingZero(s); }
    DigitsNumeral(d.coeff);
    assert |t| + d.exponent == e10;
    hide *;
    NumeralIsFrac(t);
    Pow10Add(|t|, d.exponent);
    TimesAssoc(Frac10(t), Pow10(|t|), Pow10(d.exponent));
    if u != s {
      Pow10Step(e10);
      TenthTimes(Frac10(s), Pow10(e10));
    }
  }

  lemma LeadingZero(s: seq<digit>)
    ensures Frac10([0] + s) == Frac10(s) / 10.0
  {
    assert ([0] + s)[1..] == s;
  }

  lemma TenthTimes(x: real, y: real)
    ensures Times(x / 10.0, 10.0 * y) == Times(x, y)
  {
    assert (x / 10.0) * (10.0 * y) == x * y;
  }

  /** decimalEandM: minimal base-100 mantissa, normalized so that the magnitude is in [100^(e-1), 100^e). */
  lemma CanonicalEandM(d: Decimal)
    requires d.Finite? && d.coeff > 0
    ensures var (e, x) := EandM(d);
            && Trimmed(x) && x[0] > 0
            && Times(d.coeff as real, Pow10(d.exponent)) == Times(Frac100(x), Pow10(2 * e))
  {
    SignificantForm(d);
    SignificantValue(d);
    PackedPairs(Significant(d));
  }

  lemma PackedPairs(u: seq<digit>)
    requires u != [] && u[|u| - 1] != 0 && (u[0] != 0 || (|u| > 1 && u[1] != 0))
    ensures var x := Pairs(PadEven(u)); Trimmed(x) && x[0] > 0 && Frac100(x) == Frac10(u)
  {
    hide Frac10, Frac100, Pairs;
    var p := PadEven(u);
    Frac10TrailingZero(u);
    PairsFrac(p);
    LastPair(p);
    FirstPair(p);
  }

  // ------------------------------------------------- order

  lemma {:induction false} MantissaOrder(x: seq<cent>, y: seq<cent>)
    requires x != [] && CentLess(x, y)
    ensures Before(Mantissa(x), Mantissa(y))
  {
    if x[0] == y[0] && |x| > 1 {
      MantissaOrder(x[1..], y[1..]);
      BeforeUnderPrefix([2 * x[0] as byte + 1], Mantissa(x[1..]), Mantissa(y[1..]));
    }
  }

  lemma AppendTwo(p: bytes, a: bytes, b: bytes, x: bytes, y: bytes)
    requires Before(a, b)
    ensures Before(p + a + x, p + b + y)
  {
    hide Before;
    BeforeExtends(a, b, x, y);
    BeforeUnderPrefix(p, a + x, b + y);
    assert p + a + x == p + (a + x) && p + b + y == p + (b + y);
  }

  lemma VarExpOrder(tag: byte, asc: bool, e1: uint64, m1: bytes, e2: uint64, m2: bytes)
    requires if e1 == e2 then Before(m1, m2) else if asc then e1 < e2 else e1 > e2
    ensures Before(VarExpNumber(tag, asc, e1, m1), VarExpNumber(tag, asc, e2, m2))
  {
    hide Before, EncodeUvarintAscending, EncodeUvarintDescending;
    var x1 := if asc then EncodeUvarintAscending(e1) else EncodeUvarintDescending(e1);
    var x2 := if asc then EncodeUvarintAscending(e2) else EncodeUvarintDescending(e2);
    var t := [DECIMAL_TERMINATOR];
    if e1 == e2 {
      AppendTwo([tag] + x1, m1, m2, t, t);
    } else {
      if asc { UvarintAscendingOrder(e1, e2); } else { UvarintDescendingOrder(e2, e1); }
      AppendTwo([tag], x1, x2, m1 + t, m2 + t);
      assert [tag] + x1 + m1 + t == [tag] + x1 + (m1 + t);
      assert [tag] + x2 + m2 + t == [tag] + x2 + (m2 + t);
    }
  }

  /** Larger exponent, or equal exponents and larger mantissa: later when positive, earlier when negative. */
  lemma EandMOrder(e1: int, x1: seq<cent>, e2: int, x2: seq<cent>, negative: bool)
    requires -TWO63 < e1 <= e2 < TWO63 && x1 != []
    requires e1 == e2 ==> CentLess(x1, x2)
    ensures var b1, b2 := EncodeEandM(negative, e1, Mantissa(x1)), EncodeEandM(negative, e2, Mantissa(x2));
            if negative then Before(b2, b1) else Before(b1, b2)
  {
    var m1, m2 := Mantissa(x1), Mantissa(x2);
    if e1 == e2 {
      MantissaOrder(x1, x2);
      ComplementReverses(m2, m1);
    }
    hide Before, Mantissa, Complement, CentLess;
    if negative { NegativeOrder(e1, m1, e2, m2); } else { PositiveOrder(e1, m1, e2, m2); }
  }

  lemma PositiveOrder(e1: int, m1: bytes, e2: int, m2: bytes)
    requires -TWO63 < e1 <= e2 < TWO63
    requires e1 == e2 ==> Before(m1, m2)
    ensures Before(EncodeEandM(false, e1, m1), EncodeEandM(false, e2, m2))
  {
    hide EncodeUvarintAscending, EncodeUvarintDescending;
    if e2 < 0 {
      VarExpOrder(DECIMAL_POS_SMALL, false, -e1, m1, -e2, m2);
    } else if e1 > 10 {
      VarExpOrder(DECIMAL_POS_LARGE, true, e1, m1, e2, m2);
    } else if e1 == e2 {
      AppendTwo([DECIMAL_POS_MEDIUM + e1 as byte], m1, m2, [DECIMAL_TERMINATOR], [DECIMAL_TERMINATOR]);
    } else {
      assert EncodeEandM(false, e1, m1)[0] < EncodeEandM(false, e2, m2)[0];
    }
  }

  lemma NegativeOrder(e1: int, m1: bytes, e2: int, m2: bytes)
    requires -TWO63 < e1 <= e2 < TWO63
    requires e1 == e2 ==> Before(Complement(m2), Complement(m1))
    ensures Before(EncodeEandM(true, e2, m2), EncodeEandM(true, e1, m1))
  {
    hide EncodeUvarintAscending, EncodeUvarintDescending, Complement;
    var c1, c2 := Complement(m1), Complement(m2);
    if e2 < 0 {
      VarExpOrder(DECIMAL_NEG_SMALL, true, -e2, c2, -e1, c1);
    } else if e1 > 10 {
      VarExpOrder(DECIMAL_NEG_LARGE, false, e2, c2, e1, c1);
    } else if e1 == e2 {
      AppendTwo([DECIMAL_NEG_MEDIUM - e1 as byte], c2, c1, [DECIMAL_TERMINATOR], [DECIMAL_TERMINATOR]);
    } else {
      assert EncodeEandM(true, e2, m2)[0] < EncodeEandM(true, e1, m1)[0];
    }
  }

  /** The tag byte tells the sign and the magnitude class apart from every other form. */
  lemma FiniteTag(negative: bool, e: int, m: bytes)
    requires -TWO63 < e < TWO63
    ensures var b := EncodeEandM(negative, e, m);
            b != [] && if negative then DECIMAL_NEG_LARGE <= b[0] <= DECIMAL_NEG_SMALL else DECIMAL_POS_SMALL <= b[0] <= DECIMAL_POS_LARGE
  {
  }

  lemma Frac100Lower(x: seq<cent>)
    requires x != [] && x[0] > 0
    ensures Frac100(x) >= 0.01
  {
  }

  lemma TimesMonotone(x: real, y: real, p: real)
    requires x < y && p > 0.0
    ensures Times(x, p) < Times(y, p)
  {
    assert (y - x) * p > 0.0;
    assert (y - x) * p == y * p - x * p;
  }

  lemma HundredthTimes(p: real)
    ensures Times(0.01, 100.0 * p) == p && Times(1.0, p) == p
  {
  }

  /** Canonical pairs order as the magnitudes they denote. */
  lemma MagnitudeOrder(e1: int, x1: seq<cent>, e2: int, x2: seq<cent>)
    requires Trimmed(x2) && x2[0] > 0
    requires e1 < e2 || (e1 == e2 && CentLess(x1, x2))
    ensures Times(Frac100(x1), Pow10(2 * e1)) < Times(Frac100(x2), Pow10(2 * e2))
  {
    if e1 == e2 { FracOrder(x1, x2); }
    Frac100Lower(x2);
    hide *;
    if e1 == e2 {
      TimesMonotone(Frac100(x1), Frac100(x2), Pow10(2 * e1));
    } else {
      var p, q := Pow10(2 * e1), Pow10(2 * e2);
      TimesMonotone(Frac100(x1), 1.0, p);
      Pow10Monotone(2 * e1, 2 * e2 - 2);
      Pow10Step(2 * e2 - 2);
      Pow10Step(2 * e2 - 1);
      HundredthTimes(p);
      HundredthTimes(Pow10(2 * e2 - 2));
      if Frac100(x2) > 0.01 { TimesMonotone(0.01, Frac100(x2), q); }
    }
  }

  /** Order of decimals as keys: NaN, -Infinity, the numbers, +Infinity. */
  function Rank(d: Decimal): int {
    match d
    case NaN => 0
    case Infinite(negative) => if negative then 1 else 3
    case Finite(_, _, _) => 2
  }

  predicate Less(a: Decimal, b: Decimal) {
    Rank(a) < Rank(b) || (a.Finite? && b.Finite? && Value(a) < Value(b))
  }

  predicate SameNumber(a: Decimal, b: Decimal) {
    Rank(a) == Rank(b) && (a.Finite? && b.Finite? ==> Value(a) == Value(b))
  }

  lemma MagnitudePositive(d: Decimal)
    requires d.Finite?
    ensures d.coeff == 0 ==> Value(d) == 0.0
    ensures d.coeff > 0 ==> if d.negative then Value(d) < 0.0 else Value(d) > 0.0
  {
    assert d.coeff > 0 ==> Times(d.coeff as real, Pow10(d.exponent)) > 0.0;
    assert Times(0.0, Pow10(d.exponent)) == 0.0;
  }

  /** Two nonzero numbers of one sign: equal values share one encoding, others are strictly apart. */
  lemma SameSignOrder(a: Decimal, b: Decimal, invert: bool)
    requires a.Finite? && b.Finite? && a.coeff > 0 && b.coeff > 0 && a.negative == b.negative
    requires Representable(a) && Representable(b)
    ensures Value(a) == Value(b) ==> EncodeDecimal(a, invert) == EncodeDecimal(b, invert)
    ensures Value(a) < Value(b) ==>
              if invert then Before(EncodeDecimal(b, invert), EncodeDecimal(a, invert))
              else Before(EncodeDecimal(a, invert), EncodeDecimal(b, invert))
  {
    var (e1, x1) := EandM(a);
    var (e2, x2) := EandM(b);
    CanonicalEandM(a);
    CanonicalEandM(b);
    ExponentInRange(a);
    ExponentInRange(b);
    CentTotal(x1, x2);
    hide CentLess, Before, Times, EandM, EncodeEandM, Mantissa, Digits;
    if e1 < e2 || (e1 == e2 && CentLess(x1, x2)) {
      MagnitudeOrder(e1, x1, e2, x2);
      EandMOrder(e1, x1, e2, x2, a.negative != invert);
    } else if e2 < e1 || CentLess(x2, x1) {
      MagnitudeOrder(e2, x2, e1, x1);
      EandMOrder(e2, x2, e1, x1, a.negative != invert);
    }
  }

  /** Byte order of ascending encodings is numeric order; descending encodings reverse it. */
  lemma DecimalOrder(a: Decimal, b: Decimal, invert: bool)
    requires Representable(a) && Representable(b) && Less(a, b)
    ensures if invert then Before(EncodeDecimal(b, invert), EncodeDecimal(a, invert))
            else Before(EncodeDecimal(a, invert), EncodeDecimal(b, invert))
  {
    if a.Finite? { MagnitudePositive(a); NonzeroTag(a, invert); }
    if b.Finite? { MagnitudePositive(b); NonzeroTag(b, invert); }
    if a.Finite? && b.Finite? && a.coeff > 0 && b.coeff > 0 && a.negative == b.negative {
      SameSignOrder(a, b, invert);
    }
  }

  lemma NonzeroTag(d: Decimal, invert: bool)
    requires d.Finite? && Representable(d)
    ensures var b := EncodeDecimal(d, invert);
            b != [] && if d.coeff == 0 then b == [DECIMAL_ZERO]
            else if d.negative != invert then DECIMAL_NEG_LARGE <= b[0] <= DECIMAL_NEG_SMALL
            else DECIMAL_POS_SMALL <= b[0] <= DECIMAL_POS_LARGE
  {
    ExponentInRange(d);
    if d.coeff > 0 { FiniteTag(d.negative != invert, EandM(d).0, Mantissa(EandM(d).1)); }
  }

  /** Numerically equal decimals (1.0 and 1.00, 0 and -0) have one encoding. */
  lemma DecimalEqual(a: Decimal, b: Decimal, invert: bool)
    requires Representable(a) && Representable(b) && SameNumber(a, b)
    ensures EncodeDecimal(a, invert) == EncodeDecimal(b, invert)
  {
    if a.Finite? {
      MagnitudePositive(a);
      MagnitudePositive(b);
      if a.coeff > 0 { SameSignOrder(a, b, invert); }
    }
  }

  // ------------------------------------------------- round trip

  lemma {:induction false} MantissaBytes(x: seq<cent>)
    requires Trimmed(x)
    ensures forall i :: 0 <= i < |x| ==> 1 <= Mantissa(x)[i] <= 199 && Mantissa(x)[i] as int / 2 == x[i] as int
  {
    if |x| > 1 { MantissaBytes(x[1..]); }
  }

  lemma HalvesMantissa(x: seq<cent>)
    requires Trimmed(x)
    ensures forall i :: 0 <= i < |x| ==> Mantissa(x)[i] / 2 <= 99
    ensures Halves(Mantissa(x)) == x
  {
    MantissaBytes(x);
  }

  /** What the decoder returns for d: no trailing zeros in the coefficient, no negative
      zero, and the exponent cut to 32 bits. */
  function Reduced(d: Decimal): Decimal {
    if !d.Finite? then d
    else if d.coeff == 0 then Finite(false, 0, 0)
    else Finite(d.negative, WithoutZeros(d.coeff), ToInt32(d.exponent + TrailingZeros(d.coeff)))
  }

  lemma MakeDecimalInverts(d: Decimal, negative: bool)
    requires d.Finite? && d.coeff > 0
    ensures var (e, x) := EandM(d);
            MakeDecimal(negative, e, Mantissa(x)) == Success(Reduced(d).(negative := negative))
  {
    hide Frac100, Frac10, Pow10, Times, Pairs, Unpairs, Digits, StripZeros, Mantissa, Significant, Numeral, Trimmed;
    var (e, x) := EandM(d);
    var u := Significant(d);
    CanonicalEandM(d);
    SignificantForm(d);
    HalvesMantissa(x);
    UnpairsPairs(PadEven(u));
    assert u + [0] != [] && (u + [0])[..|u|] == u;
    StripNumeral(d.coeff);
    NumeralLeadingZero(StripZeros(Digits(d.coeff)));
  }

  lemma FinishInverts(d: Decimal, complemented: bool, negative: bool, rest: bytes)
    requires d.Finite? && d.coeff > 0
    ensures var (e, x) := EandM(d);
            var m := if complemented then Complement(Mantissa(x)) else Mantissa(x);
            FinishNumber(complemented, negative, e, m + [DECIMAL_TERMINATOR] + rest) == Ok(rest, Reduced(d).(negative := negative))
  {
    var (e, x) := EandM(d);
    CanonicalEandM(d);
    MantissaBytes(x);
    MakeDecimalInverts(d, negative);
    ComplementTwice(Mantissa(x));
    var m := if complemented then Complement(Mantissa(x)) else Mantissa(x);
    hide EandM, Mantissa, MakeDecimal, Reduced;
    MantissaEnds(m, rest);
  }

  lemma MantissaEnds(m: bytes, rest: bytes)
    requires DECIMAL_TERMINATOR !in m
    ensures var b := m + [DECIMAL_TERMINATOR] + rest;
            IndexByte(b, DECIMAL_TERMINATOR) == |m| && b[..|m|] == m && b[|m| + 1..] == rest
  {
    var b := m + [DECIMAL_TERMINATOR] + rest;
    assert b[..|m|] == m && b[|m|] == DECIMAL_TERMINATOR;
    IndexByteIs(b, DECIMAL_TERMINATOR, |m|);
  }

  lemma VarExpDecodes(tag: byte, v: uint64, m: bytes, rest: bytes, invert: bool)
    requires tag in {DECIMAL_NEG_LARGE, DECIMAL_NEG_SMALL, DECIMAL_POS_LARGE, DECIMAL_POS_SMALL}
    ensures var asc, neg := tag == DECIMAL_POS_LARGE || tag == DECIMAL_NEG_SMALL, tag == DECIMAL_NEG_LARGE || tag == DECIMAL_NEG_SMALL;
            var e := if tag == DECIMAL_NEG_LARGE || tag == DECIMAL_POS_LARGE then ToInt64(v) else ToInt64(-(v as int));
            DecodeDecimal(VarExpNumber(tag, asc, v, m) + rest, invert) == FinishNumber(neg, neg != invert, e, m + [DECIMAL_TERMINATOR] + rest)
  {
    hide FinishNumber, EncodeUvarintAscending, EncodeUvarintDescending, DecodeUvarintAscending, DecodeUvarintDescending, ToInt64;
    var asc := tag == DECIMAL_POS_LARGE || tag == DECIMAL_NEG_SMALL;
    var ex := if asc then EncodeUvarintAscending(v) else EncodeUvarintDescending(v);
    var tail := m + [DECIMAL_TERMINATOR] + rest;
    var buf := VarExpNumber(tag, asc, v, m) + rest;
    assert buf[0] == tag && buf[1..] == ex + tail;
    if asc { UvarintAscendingRoundTrip(v, tail); } else { UvarintDescendingRoundTrip(v, tail); }
  }

  lemma MediumDecodes(tag: byte, m: bytes, rest: bytes, invert: bool)
    requires DECIMAL_NEG_LARGE < tag <= DECIMAL_NEG_MEDIUM || DECIMAL_POS_MEDIUM <= tag < DECIMAL_POS_LARGE
    ensures var neg := tag <= DECIMAL_NEG_MEDIUM;
            var e := if neg then (DECIMAL_NEG_MEDIUM - tag) as int else (tag - DECIMAL_POS_MEDIUM) as int;
            DecodeDecimal([tag] + m + [DECIMAL_TERMINATOR] + rest, invert) == FinishNumber(neg, neg != invert, e, m + [DECIMAL_TERMINATOR] + rest)
  {
    hide FinishNumber;
    assert ([tag] + m + [DECIMAL_TERMINATOR] + rest)[1..] == m + [DECIMAL_TERMINATOR] + rest;
  }

  lemma EandMDecodes(negative: bool, e: int, m: bytes, rest: bytes, invert: bool)
    requires -TWO63 < e < TWO63
    ensures var c := if negative then Complement(m) else m;
            DecodeDecimal(EncodeEandM(negative, e, m) + rest, invert)
            == FinishNumber(negative, negative != invert, e, c + [DECIMAL_TERMINATOR] + rest)
  {
    hide FinishNumber, VarExpNumber, DecodeDecimal, Complement;
    var c := if negative then Complement(m) else m;
    var b := EncodeEandM(negative, e, m);
    if 0 <= e <= 10 {
      MediumDecodes(b[0], c, rest, invert);
    } else {
      var v: uint64 := if e < 0 then -e else e;
      var tag := if e < 0 then (if negative then DECIMAL_NEG_SMALL else DECIMAL_POS_SMALL)
                 else if negative then DECIMAL_NEG_LARGE else DECIMAL_POS_LARGE;
      VarExpDecodes(tag, v, c, rest, invert);
    }
  }

  /** Decoding either direction's encoding returns the reduced decimal and the untouched rest. */
  lemma DecimalRoundTrip(d: Decimal, invert: bool, rest: bytes)
    requires Representable(d)
    ensures DecodeDecimal(EncodeDecimal(d, invert) + rest, invert) == Ok(rest, Reduced(d))
  {
    var buf := EncodeDecimal(d, invert) + rest;
    if d.Finite? && d.coeff > 0 {
      hide EandM, EncodeEandM, Mantissa, FinishNumber, Complement, DecodeDecimal;
      ExponentInRange(d);
      EandMDecodes(d.negative != invert, EandM(d).0, Mantissa(EandM(d).1), rest, invert);
      FinishInverts(d, d.negative != invert, d.negative, rest);
    } else {
      assert buf[1..] == rest;
    }
  }

  /** The decoded decimal is numerically equal exactly when the reduced exponent still fits
      32 bits: a coefficient with trailing zeros can push it past the largest exponent. */
  lemma DecodedValue(d: Decimal)
    requires d.Finite?
    ensures Value(Reduced(d)) == Value(d) <==> d.coeff == 0 || d.exponent + TrailingZeros(d.coeff) <= MAX_INT32
  {
    if d.coeff == 0 {
      MagnitudePositive(d);
      MagnitudePositive(Reduced(d));
    } else {
      var n, z := WithoutZeros(d.coeff), TrailingZeros(d.coeff);
      var exact := d.exponent + z;
      WithoutZerosScale(d.coeff);
      assert ToInt32(exact) == exact <==> exact <= MAX_INT32;
      hide Pow10, Times, WithoutZeros, TrailingZeros, ToInt32;
      TimesAssoc(n as real, Pow10(z), Pow10(d.exponent));
      Pow10Add(z, d.exponent);
      Pow10Injective(ToInt32(exact), exact);
      TimesInjective(n as real, Pow10(ToInt32(exact)), Pow10(exact));
    }
  }

  lemma TimesInjective(n: real, p: real, q: real)
    requires n > 0.0
    ensures Times(n, p) == Times(n, q) <==> p == q
  {
    assert n * p - n * q == n * (p - q);
  }

  /** A decimal whose decoding changes its value: 10 * 10^MAX_INT32. */
  lemma ExponentWraps(d: Decimal)
    requires d == Finite(false, 10, MAX_INT32)
    ensures Reduced(d) == Finite(false, 1, -0x8000_0000) && Value(Reduced(d)) != Value(d)
  {
    hide Value, Pow10, Times;
    assert TrailingZeros(10) == 1 && WithoutZeros(10) == 1;
    DecodedValue(d);
  }

  // ------------------------------------------------- length

  lemma TerminatorAfter(p: bytes, m: bytes, rest: bytes)
    requires DECIMAL_TERMINATOR !in m
    ensures TerminatorLen(p + m + [DECIMAL_TERMINATOR] + rest, |p|) == Success(|p| + |m| + 1)
  {
    assert (p + m + [DECIMAL_TERMINATOR] + rest)[|p|..] == m + [DECIMAL_TERMINATOR] + rest;
    MantissaEnds(m, rest);
  }

  lemma VarExpLength(tag: byte, asc: bool, v: uint64, m: bytes, rest: bytes)
    requires DECIMAL_TERMINATOR !in m
    requires tag in {DECIMAL_NEG_LARGE, DECIMAL_NEG_SMALL, DECIMAL_POS_LARGE, DECIMAL_POS_SMALL}
    ensures var b := VarExpNumber(tag, asc, v, m); GetDecimalLen(b + rest) == Success(|b|)
  {
    hide TerminatorLen, EncodeUvarintAscending, EncodeUvarintDescending, IndexByte, GetVarintLen;
    var b := VarExpNumber(tag, asc, v, m);
    var ex := if asc then EncodeUvarintAscending(v) else EncodeUvarintDescending(v);
    UvarintLength(v, m + [DECIMAL_TERMINATOR] + rest);
    assert (b + rest)[1..] == ex + (m + [DECIMAL_TERMINATOR] + rest);
    TerminatorAfter([tag] + ex, m, rest);
    assert b + rest == [tag] + ex + m + [DECIMAL_TERMINATOR] + rest;
  }

  lemma EandMLength(negative: bool, e: int, m: bytes, rest: bytes)
    requires -TWO63 < e < TWO63
    requires forall i :: 0 <= i < |m| ==> 1 <= m[i] <= 199
    ensures var b := EncodeEandM(negative, e, m); GetDecimalLen(b + rest) == Success(|b|)
  {
    hide TerminatorLen, VarExpNumber, Complement, IndexByte;
    var c := if negative then Complement(m) else m;
    var b := EncodeEandM(negative, e, m);
    assert DECIMAL_TERMINATOR !in c;
    if 0 <= e <= 10 {
      TerminatorAfter([b[0]], c, rest);
    } else {
      hide GetDecimalLen;
      var v: uint64 := if e < 0 then -e else e;
      var tag := if e < 0 then (if negative then DECIMAL_NEG_SMALL else DECIMAL_POS_SMALL)
                 else if negative then DECIMAL_NEG_LARGE else DECIMAL_POS_LARGE;
      VarExpLength(tag, (e < 0) == negative, v, c, rest);
    }
  }

  /** getDecimalLen finds the end of the encoding, whatever follows it. */
  lemma DecimalLength(d: Decimal, invert: bool, rest: bytes)
    requires Representable(d)
    ensures var b := EncodeDecimal(d, invert);
            b != [] && DECIMAL_NAN <= b[0] <= DECIMAL_NAN_DESC && GetDecimalLen(b + rest) == Success(|b|)
  {
    if d.Finite? {
      NonzeroTag(d, invert);
      if d.coeff > 0 {
        ExponentInRange(d);
        CanonicalEandM(d);
        MantissaBytes(EandM(d).1);
        hide EandM, EncodeEandM, Mantissa, GetDecimalLen;
        EandMLength(d.negative != invert, EandM(d).0, Mantissa(EandM(d).1), rest);
      }
    }
  }
}
