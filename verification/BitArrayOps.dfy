/** Bit arrays as sequences of booleans, and the operations on them
    (pkg/util/bitarray/bitarray.go). */
module BitArrayOps {
  import opened GoInts
  import opened BitWords
  import opened BitArrays

  // ------------------------------------------------- the booleans a bit array stands for

  function BitLen(d: BitArray): nat
    requires Shaped(d)
  {
    if d.words == [] then 0 else (|d.words| - 1) * 64 + d.lastBitsUsed
  }

  /** No bits means no words; otherwise the last word uses between 1 and 64 bits. */
  predicate Shaped(d: BitArray) {
    d.lastBitsUsed <= 64 && (d.words == [] <==> d.lastBitsUsed == 0)
  }

  function WordAt(words: seq<word>, j: nat): word {
    if j < |words| then words[j] else 0
  }

  /** Bit p, counting from the left; false beyond the words. */
  predicate At(words: seq<word>, p: nat) {
    WordBit(WordAt(words, p / 64), p % 64)
  }

  /** The unused low bits of the last word are zero. */
  ghost predicate Tidy(d: BitArray) {
    Shaped(d) && forall p: nat :: p >= BitLen(d) ==> !At(d.words, p)
  }

  function Bits(d: BitArray): (b: seq<bool>)
    requires Shaped(d)
    ensures |b| == BitLen(d) && forall p: nat :: p < |b| ==> b[p] == At(d.words, p)
  {
    seq(BitLen(d), p requires 0 <= p < BitLen(d) => At(d.words, p))
  }

  function Zeros(n: nat): (b: seq<bool>)
    ensures |b| == n && forall p: nat :: p < n ==> !b[p]
  {
    seq(n, p => false)
  }

  lemma AtBit(words: seq<word>, j: nat, k: nat)
    requires k < 64
    ensures At(words, j * 64 + k) <==> WordBit(WordAt(words, j), k)
  {
    assert (j * 64 + k) / 64 == j && (j * 64 + k) % 64 == k;
  }

  lemma BeyondWords(words: seq<word>, p: nat)
    requires p >= |words| * 64
    ensures !At(words, p)
  {
    ZeroWord(p % 64);
  }

  lemma {:induction false} SameWords(a: seq<word>, b: seq<word>)
    requires |a| == |b| && forall p: nat :: p < |a| * 64 ==> (At(a, p) <==> At(b, p))
    ensures a == b
  {
    forall j: nat | j < |a| ensures a[j] == b[j] {
      forall k: nat | k < 64 ensures WordBit(a[j], k) <==> WordBit(b[j], k) {
        AtBit(a, j, k);
        AtBit(b, j, k);
        assert At(a, j * 64 + k) <==> At(b, j * 64 + k);
      }
      SameWord(a[j], b[j]);
    }
  }

  lemma LengthIs(d: BitArray)
    requires Shaped(d)
    ensures |d.words| == (BitLen(d) + 63) / 64
    ensures d.words != [] ==> d.lastBitsUsed == if BitLen(d) % 64 == 0 then 64 else BitLen(d) % 64
  {
  }

  /** Each sequence of booleans has one tidy bit array. */
  lemma Canonical(d: BitArray, e: BitArray)
    requires Tidy(d) && Tidy(e) && Bits(d) == Bits(e)
    ensures d == e
  {
    LengthIs(d);
    LengthIs(e);
    assert BitLen(d) == |Bits(d)| == |Bits(e)| == BitLen(e);
    forall p: nat | p < |d.words| * 64 ensures At(d.words, p) <==> At(e.words, p) {
      if p < BitLen(d) { assert Bits(d)[p] == Bits(e)[p]; }
    }
    SameWords(d.words, e.words);
  }

  // ------------------------------------------------- sizes

  /** SizesForBitLen. */
  method SizesForBitLen(bitLen: nat) returns (numWords: nat, lastBitsUsed: nat)
    requires bitLen > 0
    ensures numWords > 0 && 1 <= lastBitsUsed <= 64 && bitLen == (numWords - 1) * 64 + lastBitsUsed
  {
    numWords := (bitLen + 64 - 1) / 64;
    lastBitsUsed := bitLen % 64;
    if lastBitsUsed == 0 {
      lastBitsUsed := 64;
    }
  }

  /** Zeroing the bits behind the first n of a word. */
  lemma MaskBit(w: word, n: nat, k: nat)
    requires 1 <= n <= 64 && k < 64
    ensures WordBit(AndWord(w, ShiftLeft(ALL_ONES, 64 - n)), k) <==> k < n && WordBit(w, k)
  {
    hide ShiftLeft, AndWord, WordBit;
    WordOps(ALL_ONES, 0, 64 - n, k);
    WordOps(w, ShiftLeft(ALL_ONES, 64 - n), 0, k);
    if k < n { OnesWord(k + 64 - n); }
  }

  /** A bit array of n bits whose last word is masked. */
  function Masked(words: seq<word>, lastBitsUsed: nat): BitArray
    requires words != [] && 1 <= lastBitsUsed <= 64
  {
    var last := |words| - 1;
    BitArray(words[last := AndWord(words[last], ShiftLeft(ALL_ONES, 64 - lastBitsUsed))], lastBitsUsed)
  }

  lemma MaskedBits(words: seq<word>, lastBitsUsed: nat)
    requires words != [] && 1 <= lastBitsUsed <= 64
    ensures var d := Masked(words, lastBitsUsed);
            Tidy(d) && BitLen(d) == (|words| - 1) * 64 + lastBitsUsed && forall p: nat :: p < BitLen(d) ==> (At(d.words, p) <==> At(words, p))
  {
    var d := Masked(words, lastBitsUsed);
    forall p: nat ensures At(d.words, p) <==> p < BitLen(d) && At(words, p) {
      if p < |words| * 64 {
        MaskBit(words[|words| - 1], lastBitsUsed, p % 64);
      } else {
        BeyondWords(d.words, p);
      }
    }
  }

  function Resized(b: seq<bool>, n: nat): (r: seq<bool>)
    ensures |r| == n
  {
    if n <= |b| then b[..n] else b + Zeros(n - |b|)
  }

  /** ToWidth: cut on the right, or zeros added on the right. */
  method ToWidth(d: BitArray, desiredLen: nat) returns (r: BitArray)
    requires Tidy(d)
    ensures Tidy(r) && Bits(r) == Resized(Bits(d), desiredLen)
  {
    hide ShiftLeft, AndWord, WordBit, Resized;
    var bitlen := BitLen(d);
    if bitlen == desiredLen {
      ResizedBits(d, d, desiredLen);
      return d;
    }
    if desiredLen == 0 {
      r := BitArray([], 0);
      forall p: nat ensures !At([], p) { BeyondWords([], p); }
      ResizedBits(d, r, 0);
      return;
    }
    LengthIs(d);
    var numWords, lastBitsUsed := SizesForBitLen(desiredLen);
    if desiredLen < bitlen {
      var words := d.words[..numWords];
      MaskedBits(words, lastBitsUsed);
      words := words[numWords - 1 := AndWord(words[numWords - 1], ShiftLeft(ALL_ONES, 64 - lastBitsUsed))];
      r := BitArray(words, lastBitsUsed);
      assert r == Masked(d.words[..numWords], lastBitsUsed);
      forall p: nat | p < desiredLen ensures At(d.words[..numWords], p) <==> At(d.words, p) { }
      ResizedBits(d, r, desiredLen);
      return;
    }
    var words := d.words + seq(numWords - |d.words|, i => 0);
    r := BitArray(words, lastBitsUsed);
    Padded(d, words);
    ResizedBits(d, r, desiredLen);
  }

  lemma ResizedBits(d: BitArray, r: BitArray, n: nat)
    requires Tidy(d) && Tidy(r) && BitLen(r) == n && forall p: nat :: p < n ==> (At(r.words, p) <==> At(d.words, p))
    ensures Bits(r) == Resized(Bits(d), n)
  {
    hide At;
  }

  /** Zero words behind change no bit. */
  lemma Padded(d: BitArray, words: seq<word>)
    requires |words| >= |d.words| && words[..|d.words|] == d.words && forall j :: |d.words| <= j < |words| ==> words[j] == 0
    ensures forall p: nat :: At(words, p) <==> At(d.words, p)
  {
    forall p: nat ensures At(words, p) <==> At(d.words, p) {
      if p / 64 < |d.words| { assert words[p / 64] == words[..|d.words|][p / 64]; }
    }
  }

  // ------------------------------------------------- complement

  method Not(d: BitArray) returns (r: BitArray)
    requires Tidy(d)
    ensures Tidy(r) && BitLen(r) == BitLen(d) && forall p: nat :: p < BitLen(d) ==> Bits(r)[p] == !Bits(d)[p]
  {
    var n := |d.words|;
    var words := new word[n](i requires 0 <= i < n => d.words[i]);
    for i := 0 to n
      invariant forall j :: 0 <= j < i ==> words[j] == NotWord(d.words[j])
      invariant forall j :: i <= j < n ==> words[j] == d.words[j]
    {
      words[i] := NotWord(words[i]);
    }
    if d.lastBitsUsed == 0 {
      assert words[..] == d.words;
      return BitArray(words[..], 0);
    }
    ghost var flipped := words[..];
    words[n - 1] := AndWord(words[n - 1], ShiftLeft(ALL_ONES, 64 - d.lastBitsUsed));
    r := BitArray(words[..], d.lastBitsUsed);
    assert r == Masked(flipped, d.lastBitsUsed);
    MaskedBits(flipped, d.lastBitsUsed);
    forall p: nat | p < BitLen(d) ensures Bits(r)[p] == !Bits(d)[p] {
      WordOps(d.words[p / 64], 0, 0, p % 64);
    }
  }

  // ------------------------------------------------- shifts

  /** The word at j of the array shifted left by 64 * src + shift bits. */
  lemma LeftWord(words: seq<word>, src: nat, shift: nat, j: nat, w: word, k: nat)
    requires shift < 64 && k < 64
    requires w == OrWord(ShiftLeft(WordAt(words, j + src), shift), ShiftRight(WordAt(words, j + src + 1), 64 - shift))
    ensures WordBit(w, k) <==> At(words, j * 64 + k + (src * 64 + shift))
  {
    hide WordBit, ShiftLeft, ShiftRight, OrWord;
    var a, b := WordAt(words, j + src), WordAt(words, j + src + 1);
    WordOps(ShiftLeft(a, shift), ShiftRight(b, 64 - shift), 0, k);
    WordOps(a, 0, shift, k);
    WordOps(b, 0, 64 - shift, k);
    if k + shift < 64 {
      AtBit(words, j + src, k + shift);
    } else {
      AtBit(words, j + src + 1, k + shift - 64);
    }
  }

  lemma RightWord(words: seq<word>, dst: nat, shift: nat, j: nat, w: word, k: nat)
    requires shift < 64 && k < 64 && j >= dst
    requires w == OrWord(ShiftRight(WordAt(words, j - dst), shift),
                         if j > dst then ShiftLeft(WordAt(words, j - dst - 1), 64 - shift) else 0)
    ensures WordBit(w, k) <==> j * 64 + k >= dst * 64 + shift && At(words, j * 64 + k - (dst * 64 + shift))
  {
    hide WordBit, ShiftLeft, ShiftRight, OrWord;
    var a := WordAt(words, j - dst);
    var b := if j > dst then WordAt(words, j - dst - 1) else 0;
    WordOps(ShiftRight(a, shift), ShiftLeft(b, 64 - shift), 0, k);
    WordOps(ShiftRight(a, shift), 0, 0, k);
    WordOps(a, 0, shift, k);
    WordOps(b, 0, 64 - shift, k);
    ZeroWord(k);
    if k >= shift {
      AtBit(words, j - dst, k - shift);
    } else if j > dst {
      AtBit(words, j - dst - 1, k + 64 - shift);
    }
  }

  function LeftShifted(b: seq<bool>, n: int): (r: seq<bool>)
    ensures |r| == |b|
  {
    if n >= 0 then
      if n >= |b| then Zeros(|b|) else b[n..] + Zeros(n)
    else
      if -n >= |b| then Zeros(|b|) else Zeros(-n) + b[..|b| + n]
  }

  method LeftShiftAny(d: BitArray, n: int64) returns (r: BitArray)
    requires Tidy(d) && BitLen(d) < TWO63
    ensures Tidy(r) && Bits(r) == LeftShifted(Bits(d), n)
  {
    hide ShiftLeft, ShiftRight, AndWord, OrWord, WordBit, LeftShifted, At;
    var bitlen := BitLen(d);
    if n == 0 || bitlen == 0 {
      ShiftedNowhere(d, n);
      return d;
    }
    var size := |d.words|;
    var count: int := n;
    if (n > 0 && n > bitlen) || (n < 0 && ToInt64(-count) > bitlen) {
      r := BitArray(seq(size, i => 0), d.lastBitsUsed);
      ZeroBits(r);
      ShiftedAway(d, r, n);
      return;
    }
    var words := new word[size](i => 0);
    if n > 0 {
      var srcWord, srcShift := n / 64, n % 64;
      LeftLoops(d.words, words, srcWord, srcShift);
      r := BitArray(words[..], d.lastBitsUsed);
      ShiftedLeft(d, r, srcWord, srcShift);
      BitsLeft(d, r, n);
    } else {
      count := if n == -TWO63 then TWO63 else -count;
      var dstWord, srcShift := count / 64, count % 64;
      RightLoops(d.words, words, dstWord, srcShift);
      ghost var shifted := words[..];
      words[size - 1] := AndWord(words[size - 1], ShiftLeft(ALL_ONES, 64 - d.lastBitsUsed));
      r := BitArray(words[..], d.lastBitsUsed);
      assert r == Masked(shifted, d.lastBitsUsed);
      MaskedBits(shifted, d.lastBitsUsed);
      ShiftedRight(d, shifted, dstWord, srcShift);
      BitsRight(d, r, n);
    }
  }

  lemma ShiftedNowhere(d: BitArray, n: int)
    requires Tidy(d) && (n == 0 || BitLen(d) == 0)
    ensures Bits(d) == LeftShifted(Bits(d), n)
  {
  }

  lemma ShiftedAway(d: BitArray, r: BitArray, n: int)
    requires Tidy(d) && Tidy(r) && BitLen(r) == BitLen(d) && (n >= BitLen(d) || -n >= BitLen(d))
    requires forall p: nat :: !At(r.words, p)
    ensures Bits(r) == LeftShifted(Bits(d), n)
  {
  }

  lemma BitsLeft(d: BitArray, r: BitArray, n: nat)
    requires Tidy(d) && Tidy(r) && BitLen(r) == BitLen(d)
    requires forall p: nat :: At(r.words, p) <==> At(d.words, p + n)
    ensures Bits(r) == LeftShifted(Bits(d), n)
  {
    hide At;
    var b, s := Bits(r), LeftShifted(Bits(d), n);
    forall p: nat | p < |b| ensures b[p] == s[p] {
      assert At(r.words, p) <==> At(d.words, p + n);
    }
  }

  lemma BitsRight(d: BitArray, r: BitArray, n: int)
    requires Tidy(d) && Tidy(r) && BitLen(r) == BitLen(d) && n < 0
    requires forall p: nat :: p < BitLen(d) ==> (At(r.words, p) <==> p >= -n && At(d.words, p + n))
    ensures Bits(r) == LeftShifted(Bits(d), n)
  {
    hide At;
    var b, s := Bits(r), LeftShifted(Bits(d), n);
    forall p: nat | p < |b| ensures b[p] == s[p] { }
  }

  lemma ZeroBits(d: BitArray)
    requires Shaped(d) && forall j :: 0 <= j < |d.words| ==> d.words[j] == 0
    ensures Tidy(d) && forall p: nat :: !At(d.words, p)
  {
    forall p: nat ensures !At(d.words, p) { ZeroWord(p % 64); }
  }

  /** The two loops of a left shift: heads, then the bits carried from the next word. */
  method LeftLoops(src: seq<word>, dst: array<word>, srcWord: nat, srcShift: nat)
    requires dst.Length == |src| && srcShift < 64 && forall j :: 0 <= j < |src| ==> dst[j] == 0
    modifies dst
    ensures forall j :: 0 <= j < |src| ==>
      dst[j] == OrWord(ShiftLeft(WordAt(src, j + srcWord), srcShift), ShiftRight(WordAt(src, j + srcWord + 1), 64 - srcShift))
  {
    hide ShiftLeft, ShiftRight, OrWord;
    ShiftsOfZero(srcShift);
    var i, j := srcWord, 0;
    while i < |src|
      invariant j == i - srcWord
      invariant forall x :: 0 <= x < |src| ==> dst[x] == if x < j then ShiftLeft(WordAt(src, x + srcWord), srcShift) else 0
    {
      dst[j] := ShiftLeft(src[i], srcShift);
      i, j := i + 1, j + 1;
    }
    ghost var heads := dst[..];
    assert forall x :: 0 <= x < |src| ==> heads[x] == ShiftLeft(WordAt(src, x + srcWord), srcShift);
    i, j := srcWord + 1, 0;
    while i < |src|
      invariant j == i - srcWord - 1
      invariant forall x :: 0 <= x < |src| ==>
        dst[x] == if x < j then OrWord(heads[x], ShiftRight(WordAt(src, x + srcWord + 1), 64 - srcShift)) else heads[x]
    {
      dst[j] := OrWord(dst[j], ShiftRight(src[i], 64 - srcShift));
      i, j := i + 1, j + 1;
    }
    forall x | 0 <= x < |src| ensures OrWord(heads[x], 0) == heads[x] { OrWordZero(heads[x]); }
  }

  method RightLoops(src: seq<word>, dst: array<word>, dstWord: nat, srcShift: nat)
    requires dst.Length == |src| && srcShift < 64 && forall j :: 0 <= j < |src| ==> dst[j] == 0
    modifies dst
    ensures forall j :: 0 <= j < |src| ==>
      dst[j] == if j < dstWord then 0
                else OrWord(ShiftRight(WordAt(src, j - dstWord), srcShift),
                            if j > dstWord then ShiftLeft(WordAt(src, j - dstWord - 1), 64 - srcShift) else 0)
  {
    hide ShiftLeft, ShiftRight, OrWord;
    var i, j := 0, dstWord;
    while j < |src|
      invariant i == j - dstWord && i >= 0
      invariant forall x :: 0 <= x < |src| ==> dst[x] == if dstWord <= x < j then ShiftRight(src[x - dstWord], srcShift) else 0
    {
      dst[j] := ShiftRight(src[i], srcShift);
      i, j := i + 1, j + 1;
    }
    ghost var tails := dst[..];
    i, j := 0, dstWord + 1;
    while j < |src|
      invariant i == j - dstWord - 1 && i >= 0
      invariant forall x :: 0 <= x < |src| ==>
        dst[x] == if dstWord < x < j then OrWord(tails[x], ShiftLeft(src[x - dstWord - 1], 64 - srcShift)) else tails[x]
    {
      dst[j] := OrWord(dst[j], ShiftLeft(src[i], 64 - srcShift));
      i, j := i + 1, j + 1;
    }
    forall x | 0 <= x < |src| ensures OrWord(tails[x], 0) == tails[x] { OrWordZero(tails[x]); }
  }

  lemma OrWordZero(a: word)
    ensures OrWord(a, 0) == a
  {
  }

  lemma ShiftsOfZero(s: nat)
    requires s < 64
    ensures ShiftLeft(0, s) == 0 && ShiftRight(0, 64 - s) == 0
  {
    forall k: nat | k < 64 ensures WordBit(ShiftLeft(0, s), k) <==> WordBit(0, k) {
      WordOps(0, 0, s, k);
      ZeroWord(k);
      if k + s < 64 { ZeroWord(k + s); }
    }
    SameWord(ShiftLeft(0, s), 0);
    HalvedSmaller(0, 64 - s);
  }

  lemma ShiftedLeft(d: BitArray, r: BitArray, srcWord: nat, srcShift: nat)
    requires Tidy(d) && |r.words| == |d.words| && r.lastBitsUsed == d.lastBitsUsed && srcShift < 64
    requires forall j :: 0 <= j < |d.words| ==>
      r.words[j] == OrWord(ShiftLeft(WordAt(d.words, j + srcWord), srcShift), ShiftRight(WordAt(d.words, j + srcWord + 1), 64 - srcShift))
    ensures Tidy(r) && BitLen(r) == BitLen(d)
    ensures forall p: nat :: At(r.words, p) <==> At(d.words, p + (srcWord * 64 + srcShift))
  {
    hide ShiftLeft, ShiftRight, OrWord, WordBit;
    var n := srcWord * 64 + srcShift;
    forall p: nat ensures At(r.words, p) <==> At(d.words, p + n) {
      if p < |d.words| * 64 {
        LeftWord(d.words, srcWord, srcShift, p / 64, r.words[p / 64], p % 64);
        assert p / 64 * 64 + p % 64 == p;
      } else {
        BeyondWords(r.words, p);
        BeyondWords(d.words, p + n);
      }
    }
  }

  lemma ShiftedRight(d: BitArray, shifted: seq<word>, dstWord: nat, srcShift: nat)
    requires Tidy(d) && |shifted| == |d.words| && srcShift < 64
    requires forall j :: 0 <= j < |d.words| ==>
      shifted[j] == if j < dstWord then 0
                    else OrWord(ShiftRight(WordAt(d.words, j - dstWord), srcShift),
                                if j > dstWord then ShiftLeft(WordAt(d.words, j - dstWord - 1), 64 - srcShift) else 0)
    ensures var n := dstWord * 64 + srcShift;
            forall p: nat :: p < BitLen(d) ==> (At(shifted, p) <==> p >= n && At(d.words, p - n))
  {
    hide ShiftLeft, ShiftRight, OrWord, WordBit;
    var n := dstWord * 64 + srcShift;
    forall p: nat | p < BitLen(d) ensures At(shifted, p) <==> p >= n && At(d.words, p - n) {
      var j, k := p / 64, p % 64;
      assert j * 64 + k == p && j < |d.words|;
      if j < dstWord {
        ZeroWord(k);
      } else {
        RightWord(d.words, dstWord, srcShift, j, shifted[j], k);
      }
    }
  }
}
