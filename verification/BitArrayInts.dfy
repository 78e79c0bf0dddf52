/** Bit arrays made from int64 values and read back (pkg/util/bitarray/bitarray.go). */
module BitArrayInts {
  import opened GoInts
  import opened Bitwise
  import opened BitWords
  import opened BitArrays
  import opened BitArrayOps

  // ------------------------------------------------- int64 as a bit pattern

  /** Go's conversion of an int64 to a word. */
  function Pattern(v: int64): word {
    if v < 0 then (v + TWO64) as word else v as word
  }

  /** Go's conversion of a word to an int64. */
  function Signed(w: word): int64 {
    if w as int >= TWO63 then w as int - TWO64 else w as int
  }

  /** Bit j of an int64 in two's complement. */
  predicate ValueBit(v: int64, j: nat) {
    BitOf(Pattern(v) as int, j)
  }

  lemma PatternInverse(v: int64, w: word)
    ensures Signed(Pattern(v)) == v && Pattern(Signed(w)) == w
  {
  }

  /** >> on a signed value: the sign bit moves in from the left. */
  function ShiftRightSigned(w: word, s: nat): word {
    if w as int >= TWO63 then NotWord(ShiftRight(NotWord(w), s)) else ShiftRight(w, s)
  }

  /** It is division by a power of two, rounded down. */
  lemma ShiftRightSignedIs(w: word, s: nat)
    ensures Signed(ShiftRightSigned(w, s)) == Signed(w) / Pow2(s)
  {
    var p := Pow2(s);
    if w as int < TWO63 {
      HalvedIs(w as int, s);
      HalvedSmaller(w as int, s);
    } else {
      var m := NotWord(w) as int;
      HalvedIs(m, s);
      HalvedSmaller(m, s);
      assert Signed(w) == -m - 1;
      FloorNegative(m, p);
    }
  }

  lemma FloorNegative(m: int, p: int)
    requires m >= 0 && p > 0
    ensures (-m - 1) / p == -(m / p) - 1
  {
    var q, r := m / p, m % p;
    assert m == q * p + r;
    var d := (-m - 1) / p + q + 1;
    assert -m - 1 == ((-m - 1) / p) * p + (-m - 1) % p;
    assert (-m - 1) - (-q - 1) * p == p - 1 - r by { assert (-q - 1) * p == -(q * p) - p; }
    assert d * p == p - 1 - r - (-m - 1) % p by { assert ((-m - 1) / p) * p - (-q - 1) * p == d * p; }
    MulGrows(d, p);
  }

  lemma TopBit(w: word)
    ensures WordBit(w, 0) <==> w as int >= TWO63
  {
    Pow2Of64();
    var v := w as int;
    HalvedBit(v, 63, 0);
    HalvedIs(v, 63);
    assert Pow2(64) == 2 * Pow2(63);
    assert BitOf(v, 63) <==> (v / Pow2(63)) % 2 == 1;
    if v >= TWO63 { DivIs(v, TWO63, 1, v - TWO63); } else { DivIs(v, TWO63, 0, v); }
  }

  function Least(a: nat, b: nat): nat {
    if a < b then a else b
  }

  /** Bit j from the right of w, its top bit standing for all bits beyond. */
  predicate SignedBit(w: word, j: nat) {
    BitOf(w as int, Least(j, 63))
  }

  lemma ShiftRightSignedBit(w: word, s: nat, j: nat)
    requires j < 64
    ensures BitOf(ShiftRightSigned(w, s) as int, j) <==> SignedBit(w, j + s)
  {
    hide BitOf, Halved;
    TopBit(w);
    HalvedBit(w as int, s, j);
    Pow2Of64();
    if w as int >= TWO63 {
      var m := NotWord(w);
      HalvedBit(m as int, s, j);
      FlippedBit(ShiftRight(m, s) as int, 64, j);
      FlippedBit(w as int, 64, Least(j + s, 63));
      if j + s >= 64 { HighBitsZero(m as int, j + s); }
    } else if j + s >= 64 {
      HighBitsZero(w as int, j + s);
    }
  }

  /** Shifting left and back by 64 - n leaves the low n bits, sign-extended. */
  lemma SignExtends(w: word, n: nat, j: nat)
    requires 1 <= n <= 64 && j < 64
    ensures BitOf(ShiftRightSigned(ShiftLeft(w, 64 - n), 64 - n) as int, j) <==> BitOf(w as int, Least(j, n - 1))
  {
    hide BitOf, Low, Doubled;
    var a := ShiftLeft(w, 64 - n);
    ShiftRightSignedBit(a, 64 - n, j);
    var i := Least(j + (64 - n), 63);
    LowBit(Doubled(w as int, 64 - n), 64, i);
    DoubledBit(w as int, 64 - n, i);
  }

  // ------------------------------------------------- the two conversions

  /** Bit q of the array counted from the right, zeros beyond. */
  predicate FromRight(d: BitArray, q: nat)
    requires Shaped(d)
  {
    q < BitLen(d) && Bits(d)[BitLen(d) - 1 - q]
  }

  /** Bit k of the last word and of the one before, counted from the right. */
  lemma RightBits(d: BitArray, j: nat)
    requires Shaped(d) && d.words != [] && j < 64
    ensures var n := |d.words|;
            && (j < d.lastBitsUsed ==> (FromRight(d, j) <==> BitOf(d.words[n - 1] as int, j + 64 - d.lastBitsUsed)))
            && (n > 1 ==> (FromRight(d, j + d.lastBitsUsed) <==> BitOf(d.words[n - 2] as int, j)))
            && (n == 1 ==> !FromRight(d, j + d.lastBitsUsed))
  {
    hide BitOf;
    var n := |d.words|;
    if j < d.lastBitsUsed { AtBit(d.words, n - 1, d.lastBitsUsed - 1 - j); }
    if n > 1 { AtBit(d.words, n - 2, 63 - j); }
  }

  /** MakeBitArrayFromInt64: the low valWidth bits of val, sign-extended or cut to bitLen. */
  method MakeBitArrayFromInt64(bitLen: nat, val: int64, valWidth: nat) returns (d: BitArray)
    requires 1 <= valWidth <= 64
    ensures Shaped(d) && BitLen(d) == bitLen && Tidy(d)
    ensures forall q: nat :: q < bitLen ==> (FromRight(d, q) <==> ValueBit(val, Least(q, valWidth - 1)))
  {
    hide BitOf, ShiftLeft, ShiftRight, ShiftRightSigned, WordBit;
    if bitLen == 0 {
      d := BitArray([], 0);
      ZeroBits(d);
      return;
    }
    var numWords, lastBitsUsed := SizesForBitLen(bitLen);
    var words := new word[numWords](i => 0);
    var v := Pattern(val);
    if bitLen < valWidth {
      words[numWords - 1] := ShiftLeft(v, 64 - bitLen);
      d := BitArray(words[..], lastBitsUsed);
      ShortMade(d, v, valWidth);
      return;
    }
    var negative := WordBit(v, 64 - valWidth);
    if negative {
      for i := 0 to numWords - 1
        invariant forall j :: 0 <= j < i ==> words[j] == ALL_ONES
        invariant forall j :: i <= j < numWords ==> words[j] == 0
      {
        words[i] := ALL_ONES;
      }
    }
    v := ShiftLeft(v, 64 - valWidth);
    v := ShiftRightSigned(v, 64 - valWidth);
    words[numWords - 1] := ShiftLeft(v, 64 - lastBitsUsed);
    if valWidth > lastBitsUsed {
      words[numWords - 2] := ShiftRightSigned(v, lastBitsUsed);
    }
    d := BitArray(words[..], lastBitsUsed);
    LongMade(d, Pattern(val), valWidth, v, negative);
  }

  lemma LastWordMade(d: BitArray, v: word, k: nat)
    requires Shaped(d) && d.words != [] && k < 64 && d.words[|d.words| - 1] == ShiftLeft(v, 64 - d.lastBitsUsed)
    ensures At(d.words, (|d.words| - 1) * 64 + k) <==> k < d.lastBitsUsed && BitOf(v as int, d.lastBitsUsed - 1 - k)
  {
    hide BitOf, ShiftLeft;
    AtBit(d.words, |d.words| - 1, k);
    WordOps(v, 0, 64 - d.lastBitsUsed, k);
  }

  lemma MadeTidy(d: BitArray, v: word)
    requires Shaped(d) && d.words != [] && d.words[|d.words| - 1] == ShiftLeft(v, 64 - d.lastBitsUsed)
    ensures Tidy(d)
  {
    forall p: nat | p >= BitLen(d) ensures !At(d.words, p) {
      if p < |d.words| * 64 { LastWordMade(d, v, p - (|d.words| - 1) * 64); } else { BeyondWords(d.words, p); }
    }
  }

  lemma ShortMade(d: BitArray, v: word, valWidth: nat)
    requires Shaped(d) && |d.words| == 1 && d.words[0] == ShiftLeft(v, 64 - d.lastBitsUsed) && d.lastBitsUsed < valWidth <= 64
    ensures Tidy(d) && forall q: nat :: q < BitLen(d) ==> (FromRight(d, q) <==> BitOf(v as int, Least(q, valWidth - 1)))
  {
    MadeTidy(d, v);
    forall q: nat | q < BitLen(d) ensures FromRight(d, q) <==> BitOf(v as int, q) { LastWordMade(d, v, d.lastBitsUsed - 1 - q); }
  }

  lemma LongMade(d: BitArray, v: word, valWidth: nat, extended: word, negative: bool)
    requires Shaped(d) && d.words != [] && 1 <= valWidth <= 64 && valWidth <= BitLen(d)
    requires extended == ShiftRightSigned(ShiftLeft(v, 64 - valWidth), 64 - valWidth) && negative == WordBit(v, 64 - valWidth)
    requires var n := |d.words|;
             && d.words[n - 1] == ShiftLeft(extended, 64 - d.lastBitsUsed)
             && (valWidth > d.lastBitsUsed ==> n >= 2 && d.words[n - 2] == ShiftRightSigned(extended, d.lastBitsUsed))
             && forall j :: 0 <= j < n - 1 && !(valWidth > d.lastBitsUsed && j == n - 2) ==> d.words[j] == if negative then ALL_ONES else 0
    ensures Tidy(d) && forall q: nat :: q < BitLen(d) ==> (FromRight(d, q) <==> BitOf(v as int, Least(q, valWidth - 1)))
  {
    hide BitOf, ShiftLeft, ShiftRightSigned, WordBit;
    MadeTidy(d, extended);
    forall q: nat | q < BitLen(d) ensures FromRight(d, q) <==> BitOf(v as int, Least(q, valWidth - 1)) {
      var p := BitLen(d) - 1 - q;
      var j, k := p / 64, p % 64;
      if j == |d.words| - 1 {
        LastWordMade(d, extended, k);
        SignExtends(v, valWidth, q);
      } else {
        LongWordMade(d, v, valWidth, extended, negative, j, k);
      }
    }
  }

  lemma LongWordMade(d: BitArray, v: word, valWidth: nat, extended: word, negative: bool, j: nat, k: nat)
    requires Shaped(d) && 1 <= valWidth <= 64 && j < |d.words| - 1 && k < 64
    requires extended == ShiftRightSigned(ShiftLeft(v, 64 - valWidth), 64 - valWidth) && negative == WordBit(v, 64 - valWidth)
    requires if valWidth > d.lastBitsUsed && j == |d.words| - 2 then d.words[j] == ShiftRightSigned(extended, d.lastBitsUsed)
             else d.words[j] == if negative then ALL_ONES else 0
    ensures var p := j * 64 + k;
            p < BitLen(d) && (At(d.words, p) <==> BitOf(v as int, Least(BitLen(d) - 1 - p, valWidth - 1)))
  {
    hide BitOf, ShiftLeft, ShiftRightSigned;
    AtBit(d.words, j, k);
    if valWidth > d.lastBitsUsed && j == |d.words| - 2 {
      ShiftRightSignedBit(extended, d.lastBitsUsed, 63 - k);
      SignExtends(v, valWidth, Least(63 - k + d.lastBitsUsed, 63));
    } else {
      OnesWord(k);
      ZeroWord(k);
    }
  }

  /** AsInt64: the rightmost nbits, the leftmost of them being the sign. */
  method AsInt64(d: BitArray, nbits: nat) returns (r: int64)
    requires Tidy(d) && 1 <= nbits <= 64
    ensures forall j: nat :: j < 64 ==> (ValueBit(r, j) <==> FromRight(d, Least(j, nbits - 1)))
  {
    hide BitOf, ShiftLeft, ShiftRight, ShiftRightSigned, OrWord;
    if d.lastBitsUsed == 0 {
      forall j: nat ensures !ValueBit(0, j) { BitOfZero(j); }
      return 0;
    }
    var n := |d.words|;
    var lowPart := ShiftRight(d.words[n - 1], 64 - d.lastBitsUsed);
    var highPart: word := 0;
    if nbits > d.lastBitsUsed && n > 1 {
      highPart := ShiftLeft(d.words[n - 2], d.lastBitsUsed);
    }
    var combined := OrWord(lowPart, highPart);
    var signExtended := ShiftRightSigned(ShiftLeft(combined, 64 - nbits), 64 - nbits);
    r := Signed(signExtended);
    PatternInverse(r, signExtended);
    forall j: nat | j < 64 ensures ValueBit(r, j) <==> FromRight(d, Least(j, nbits - 1)) {
      SignExtends(combined, nbits, j);
      CombinedBit(d, nbits, lowPart, highPart, Least(j, nbits - 1));
    }
  }

  lemma CombinedBit(d: BitArray, nbits: nat, lowPart: word, highPart: word, j: nat)
    requires Tidy(d) && d.words != [] && 1 <= nbits <= 64 && j < nbits
    requires lowPart == ShiftRight(d.words[|d.words| - 1], 64 - d.lastBitsUsed)
    requires highPart == if nbits > d.lastBitsUsed && |d.words| > 1 then ShiftLeft(d.words[|d.words| - 2], d.lastBitsUsed) else 0
    ensures BitOf(OrWord(lowPart, highPart) as int, j) <==> FromRight(d, j)
  {
    hide BitOf, Low, Doubled, Halved, Or;
    var n, s := |d.words|, d.lastBitsUsed;
    OrBit(lowPart as int, highPart as int, j);
    HalvedBit(d.words[n - 1] as int, 64 - s, j);
    BitOfZero(j);
    if j < s {
      RightBits(d, j);
    } else {
      RightBits(d, j - s);
      HighBitsZero(d.words[n - 1] as int, j + 64 - s);
    }
    if nbits > s && n > 1 {
      LowBit(Doubled(d.words[n - 2] as int, s), 64, j);
      DoubledBit(d.words[n - 2] as int, s, j);
    }
  }

  /** v fits n bits of two's complement. */
  predicate Fits(v: int, n: nat)
    requires n >= 1
  {
    var p: int := Pow2(n - 1);
    -p <= v < p
  }

  /** A value of n bits repeats its sign from bit n - 1 on. */
  lemma FitsMeans(v: int64, n: nat, j: nat)
    requires 1 <= n <= 64 && Fits(v, n) && j < 64
    ensures ValueBit(v, j) <==> ValueBit(v, Least(j, n - 1))
  {
    if j >= n - 1 {
      Pow2Of64();
      if v >= 0 {
        BeyondBits(v, n - 1, j);
        BeyondBits(v, n - 1, n - 1);
      } else {
        var x: int := v;
        var m: nat := -x - 1;
        BeyondBits(m, n - 1, j);
        BeyondBits(m, n - 1, n - 1);
        FlippedBit(m, 64, j);
        FlippedBit(m, 64, n - 1);
        assert Pattern(v) as int == Pow2(64) - 1 - m;
      }
    }
  }

  /** Without bits from m on, a number is below Pow2(m). */
  lemma NoBitsBeyond(v: nat, m: nat)
    requires m <= 64 && v < TWO64 && forall j: nat :: m <= j < 64 ==> !BitOf(v, j)
    ensures v < Pow2(m)
  {
    hide BitOf, Halved;
    Pow2Of64();
    HalvedIs(v, m);
    HalvedSmaller(v, m);
    forall j: nat | j < 64 ensures BitOf(Halved(v, m), j) <==> BitOf(0, j) {
      HalvedBit(v, m, j);
      BitOfZero(j);
      if j + m >= 64 { HighBitsZero(v, j + m); }
    }
    SameBits(Halved(v, m), 0, 64);
    BelowOne(v, Pow2(m));
  }

  lemma BelowOne(v: nat, p: nat)
    requires p > 0 && v / p == 0
    ensures v < p
  {
  }

  /** Bit j is one of the first n bits or like the last of them. */
  predicate Repeats(v: int64, n: nat, j: nat)
    requires n >= 1
  {
    ValueBit(v, j) <==> ValueBit(v, Least(j, n - 1))
  }

  /** The values of n bits are exactly those that repeat their sign from bit n - 1 on. */
  lemma FitsExactly(v: int64, n: nat)
    requires 1 <= n <= 64
    ensures Fits(v, n) <==> forall j: nat :: j < 64 ==> Repeats(v, n, j)
  {
    hide BitOf;
    if Fits(v, n) {
      forall j: nat | j < 64 ensures Repeats(v, n, j) { FitsMeans(v, n, j); }
    } else if forall j: nat :: j < 64 ==> Repeats(v, n, j) {
      SignRepeatsFits(v, n);
    }
  }

  lemma SignRepeatsFits(v: int64, n: nat)
    requires 1 <= n <= 64 && forall j: nat :: j < 64 ==> Repeats(v, n, j)
    ensures Fits(v, n)
  {
    hide BitOf;
    Pow2Of64();
    SignBit(v);
    var sign := ValueBit(v, 63);
    forall j: nat | n - 1 <= j < 64 ensures ValueBit(v, j) == sign {
      assert Repeats(v, n, j) && Repeats(v, n, 63);
    }
    if v >= 0 {
      forall j: nat | n - 1 <= j < 64 ensures !BitOf(v, j) { assert !ValueBit(v, j); }
      NoBitsBeyond(v, n - 1);
    } else {
      var x: int := v;
      var m: nat := -x - 1;
      assert Pattern(v) as int == Pow2(64) - 1 - m;
      forall j: nat | n - 1 <= j < 64 ensures !BitOf(m, j) {
        FlippedBit(m, 64, j);
        assert ValueBit(v, j);
      }
      NoBitsBeyond(m, n - 1);
    }
  }

  lemma SignBit(v: int64)
    ensures ValueBit(v, 63) <==> v < 0
  {
    TopBit(Pattern(v));
  }

  /** An int64 survives the trip through a bit array that holds the bits read exactly if it fits
      both the width it is made with and the number of bits read. */
  method IntRoundTrip(bitLen: nat, val: int64, valWidth: nat, nbits: nat) returns (r: int64)
    requires 1 <= valWidth <= 64 && 1 <= nbits <= 64 && nbits <= bitLen
    ensures r == val <==> Fits(val, Least(valWidth, nbits))
  {
    hide BitOf;
    var d := MakeBitArrayFromInt64(bitLen, val, valWidth);
    r := AsInt64(d, nbits);
    var a: nat, b: nat := Pattern(r) as int, Pattern(val) as int;
    var n := Least(valWidth, nbits);
    FitsExactly(val, n);
    forall j: nat | j < 64 ensures BitOf(a, j) <==> ValueBit(val, Least(j, n - 1)) {
      assert ValueBit(r, j) <==> FromRight(d, Least(j, nbits - 1));
      assert Least(Least(j, nbits - 1), valWidth - 1) == Least(j, n - 1);
    }
    forall j: nat | j < 64 ensures Repeats(val, n, j) <==> (BitOf(a, j) <==> BitOf(b, j)) {
      assert ValueBit(val, j) <==> BitOf(b, j);
    }
    if Fits(val, n) {
      Pow2Of64();
      assert forall j: nat :: j < 64 ==> Repeats(val, n, j);
      SameBits(a, b, 64);
      PatternInverse(r, 0);
      PatternInverse(val, 0);
    }
  }
}
