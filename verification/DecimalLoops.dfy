/** The in-place loops of the decimal codec (pkg/util/encoding/decimal.go). */
module DecimalLoops {
  import opened ByteStrings
  import opened GoInts
  import opened Varint
  import opened DecimalValues
  import opened KeyDecimal

  const ASCII_ZERO: byte := 48

  function FromAscii(b: bytes): (t: seq<digit>)
    requires forall i :: 0 <= i < |b| ==> 48 <= b[i] <= 57
    ensures |t| == |b| && forall i :: 0 <= i < |b| ==> t[i] as int == b[i] as int - 48
  {
    seq(|b|, i requires 0 <= i < |b| => (b[i] - 48) as digit)
  }

  lemma {:induction false} PairsAt(t: seq<digit>, k: nat)
    requires |t| % 2 == 0 && 2 * k < |t|
    ensures Pairs(t)[k] as int == 10 * t[2 * k] as int + t[2 * k + 1] as int
    decreases |t|
  {
    if k > 0 {
      PairsAt(t[2..], k - 1);
      assert Pairs(t)[1..] == Pairs(t[2..]);
    }
  }

  lemma {:induction false} MantissaAt(x: seq<cent>, k: nat)
    requires k < |x|
    ensures Mantissa(x)[k] as int == 2 * x[k] as int + if k == |x| - 1 then 0 else 1
  {
    if k > 0 { MantissaAt(x[1..], k - 1); }
  }

  /** The packing loop of decimalEandM: ASCII digits become mantissa bytes in the front half. */
  method PackInPlace(tmp: array<byte>, n: nat)
    requires 0 < n <= tmp.Length && n % 2 == 0
    requires forall i :: 0 <= i < n ==> 48 <= tmp[i] <= 57
    modifies tmp
    ensures tmp[..n / 2] == Mantissa(Pairs(FromAscii(old(tmp[..n]))))
  {
    hide Pairs, Mantissa;
    ghost var t := FromAscii(tmp[..n]);
    ghost var x := Pairs(t);
    var i := 0;
    while i < n
      invariant 0 <= i <= n && i % 2 == 0
      invariant forall k :: i <= k < n ==> tmp[k] == old(tmp[k])
      invariant forall k :: 0 <= k < i / 2 ==> tmp[k] as int == 2 * x[k] as int + 1
    {
      var accum := 10 * (tmp[i] - ASCII_ZERO) + (tmp[i + 1] - ASCII_ZERO);
      PairsAt(t, i / 2);
      assert t[i] as int == tmp[i] as int - 48 && t[i + 1] as int == tmp[i + 1] as int - 48;
      tmp[i / 2] := 2 * accum + 1;
      i := i + 2;
    }
    tmp[n / 2 - 1] := tmp[n / 2 - 1] - 1;
    forall k | 0 <= k < n / 2 ensures tmp[k] == Mantissa(x)[k] { MantissaAt(x, k); }
  }

  /** A '0' behind the numeral, then copy(tmp[1:], tmp[:len(tmp)-1]) within the one buffer. */
  method LeadingZero(numeral: seq<digit>) returns (tmp: seq<digit>)
    ensures tmp == [0] + numeral
  {
    var n, was, want := |numeral|, numeral + [0], [0] + numeral;
    var a := new digit[n + 1](i requires 0 <= i < |was| => was[i]);
    for k := n downto 0
      invariant forall j :: 0 <= j <= k ==> a[j] == was[j]
      invariant forall j :: k < j <= n ==> a[j] == want[j]
    {
      assert was[k] == want[k + 1];
      a[k + 1] := a[k];
    }
    a[0] := 0;
    assert a[..] == want;
    tmp := a[..];
  }

  /** decimalEandM; `spare` says whether tmp comes with room to put the '0' in front of the
      coefficient's numeral at once. */
  method DecimalEandM(d: Decimal, spare: bool) returns (e100: int, m: bytes)
    requires d.Finite? && d.coeff > 0
    ensures (e100, m) == (EandM(d).0, Mantissa(EandM(d).1))
  {
    hide Digits, Pairs, Mantissa, TrailingZeros;
    var numeral := Digits(d.coeff);
    var tmp := [0] + numeral;
    if !spare {
      tmp := LeadingZero(numeral);
    }
    var e10 := d.exponent + |tmp[1..]|;
    SignificantForm(d);
    StripUnderZero(Digits(d.coeff));
    while tmp != [] && tmp[|tmp| - 1] == 0
      invariant StripZeros(tmp) == StripZeros([0] + Digits(d.coeff))
    {
      tmp := tmp[..|tmp| - 1];
    }
    if e10 >= 0 {
      e100 := (e10 + 1) / 2;
    } else {
      e100 := -((-e10) / 2);
    }
    if e100 * 2 == e10 {
      tmp := tmp[1..];
    }
    assert tmp == Significant(d);
    if |tmp| % 2 != 0 {
      tmp := tmp + [0];
    }
    m := Pack(tmp);
  }

  method Pack(tmp: seq<digit>) returns (m: bytes)
    requires |tmp| % 2 == 0 && tmp != []
    ensures m == Mantissa(Pairs(tmp))
  {
    hide Pairs, Mantissa;
    var n := |tmp|;
    var a := new byte[n](i requires 0 <= i < n => tmp[i] as byte + ASCII_ZERO);
    assert forall i :: 0 <= i < n ==> a[..n][i] == a[i];
    assert FromAscii(a[..n]) == tmp;
    PackInPlace(a, n);
    m := a[..n / 2];
  }

  /** copy(a[at:], s). */
  method Put(a: array<byte>, at: nat, s: bytes)
    requires at + |s| <= a.Length
    modifies a
    ensures forall k :: at <= k < at + |s| ==> a[k] == s[k - at]
    ensures forall k :: 0 <= k < at || at + |s| <= k < a.Length ==> a[k] == old(a[k])
  {
    for i := 0 to |s|
      invariant forall k :: at <= k < at + i ==> a[k] == s[k - at]
      invariant forall k :: 0 <= k < at || at + i <= k < a.Length ==> a[k] == old(a[k])
    {
      a[at + i] := s[i];
    }
  }

  /** encodeVarExpNumber writes tag, exponent, mantissa and terminator into a caller's buffer;
      the mantissa goes in first, at the offset EncLenUvarint* predicts. */
  method EncodeVarExpNumber(tag: byte, expAscending: bool, exp: uint64, m: bytes, encInto: array<byte>) returns (l: nat)
    requires |m| + 11 <= encInto.Length
    modifies encInto
    ensures l == |VarExpNumber(tag, expAscending, exp, m)| <= encInto.Length
    ensures encInto[..l] == VarExpNumber(tag, expAscending, exp, m)
    ensures forall k :: l <= k < encInto.Length ==> encInto[k] == old(encInto[k])
  {
    EncLenIsLength(exp);
    EncLenBound(exp);
    var n := if expAscending then EncLenUvarintAscending(exp) else EncLenUvarintDescending(exp);
    var enc := if expAscending then EncodeUvarintAscending(exp) else EncodeUvarintDescending(exp);
    hide EncodeUvarintAscending, EncodeUvarintDescending, EncLenUvarintAscending, EncLenUvarintDescending;
    l := 1 + n + |m|;
    Put(encInto, 1 + n, m);
    encInto[0] := tag;
    Put(encInto, 1, enc);
    encInto[l] := DECIMAL_TERMINATOR;
    l := l + 1;
    Joined(encInto[..l], tag, enc, m);
  }

  lemma Joined(a: bytes, tag: byte, enc: bytes, m: bytes)
    requires |a| == 2 + |enc| + |m| && a[0] == tag && a[|a| - 1] == DECIMAL_TERMINATOR
    requires forall k :: 1 <= k < 1 + |enc| ==> a[k] == enc[k - 1]
    requires forall k :: 1 + |enc| <= k < 1 + |enc| + |m| ==> a[k] == m[k - (1 + |enc|)]
    ensures a == [tag] + enc + m + [DECIMAL_TERMINATOR]
  {
  }

  lemma EncLenBound(v: uint64)
    ensures EncLenUvarintAscending(v) <= 9 && EncLenUvarintDescending(v) <= 9
  {
    UvarintAscendingForm(v);
    UvarintDescendingForm(v);
    EncLenIsLength(v);
  }

  /** The digit loop of makeDecimalFromMandE. */
  method MakeDecimalLoop(negative: bool, e: int, m: bytes) returns (r: Result<Decimal>)
    ensures r == MakeDecimal(negative, e, m)
  {
    if m == [] {
      return Failure(NoMantissa);
    }
    var b: seq<digit> := [];
    for i := 0 to |m|
      invariant forall k :: 0 <= k < i ==> m[k] / 2 <= 99
      invariant b == Unpairs(Halves(m[..i]))
    {
      var t := m[i] / 2;
      if t > 99 {
        return Failure(BadDigit);
      }
      UnpairsAppend(Halves(m[..i]), t as cent);
      assert Halves(m[..i + 1]) == Halves(m[..i]) + [t as cent];
      b := b + [(t / 10) as digit, (t % 10) as digit];
    }
    assert m[..|m|] == m;
    if b[|b| - 1] == 0 {
      b := b[..|b| - 1];
    }
    var exp := 2 * e - |b|;
    return Success(Finite(negative, Numeral(b), ToInt32(exp)));
  }

  lemma {:induction false} UnpairsAppend(x: seq<cent>, c: cent)
    ensures Unpairs(x + [c]) == Unpairs(x) + [(c as int / 10) as digit, (c as int % 10) as digit]
  {
    if x != [] {
      UnpairsAppend(x[1..], c);
      assert (x + [c])[1..] == x[1..] + [c];
    } else {
      assert x + [c] == [c] && Unpairs([c][1..]) == [];
    }
  }
}
