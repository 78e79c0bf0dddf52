/** Concatenation of bit arrays, and their text and integer forms
    (pkg/util/bitarray/bitarray.go). */
module BitArrayForms {
  import opened GoInts
  import opened Bitwise
  import opened BitWords
  import opened BitArrays
  import opened BitArrayOps

  // ------------------------------------------------- concatenation

  /** Word j of the concatenation when the left side leaves its last word partly unused. */
  function JoinedWord(lhs: BitArray, rhs: BitArray, j: nat): word
    requires lhs.words != [] && lhs.lastBitsUsed <= 64
  {
    var n, s := |lhs.words|, lhs.lastBitsUsed;
    if j + 1 < n then lhs.words[j]
    else OrWord(Carried(lhs, rhs, j), ShiftRight(WordAt(rhs.words, j + 1 - n), s))
  }

  /** What is already in word j: the end of the left side, or the rest of the previous right word. */
  function Carried(lhs: BitArray, rhs: BitArray, j: nat): word
    requires lhs.words != [] && lhs.lastBitsUsed <= 64 && j + 1 >= |lhs.words|
  {
    if j + 1 == |lhs.words| then lhs.words[j] else ShiftLeft(WordAt(rhs.words, j - |lhs.words|), 64 - lhs.lastBitsUsed)
  }

  lemma JoinedBit(lhs: BitArray, rhs: BitArray, j: nat, k: nat)
    requires Tidy(lhs) && lhs.words != [] && lhs.lastBitsUsed < 64 && k < 64
    ensures WordBit(JoinedWord(lhs, rhs, j), k) <==>
            var p := j * 64 + k; if p < BitLen(lhs) then At(lhs.words, p) else At(rhs.words, p - BitLen(lhs))
  {
    hide WordBit, ShiftLeft, ShiftRight, OrWord, At;
    var n, s := |lhs.words|, lhs.lastBitsUsed;
    AtBit(lhs.words, j, k);
    if j + 1 >= n {
      var next := WordAt(rhs.words, j + 1 - n);
      WordOps(Carried(lhs, rhs, j), ShiftRight(next, s), 0, k);
      WordOps(next, 0, s, k);
      if k >= s { AtBit(rhs.words, j + 1 - n, k - s); }
      if j + 1 > n {
        WordOps(WordAt(rhs.words, j - n), 0, 64 - s, k);
        if k < s { AtBit(rhs.words, j - n, k + 64 - s); }
      }
    }
  }

  method Concat(lhs: BitArray, rhs: BitArray) returns (r: BitArray)
    requires Tidy(lhs) && Tidy(rhs)
    ensures Tidy(r) && Bits(r) == Bits(lhs) + Bits(rhs)
  {
    hide ShiftLeft, ShiftRight, OrWord, WordBit, At;
    if lhs.lastBitsUsed == 0 {
      assert Bits(lhs) == [];
      return rhs;
    }
    if rhs.lastBitsUsed == 0 {
      assert Bits(rhs) == [];
      return lhs;
    }
    var total := (BitLen(lhs) + BitLen(rhs) + 64 - 1) / 64;
    var n, m := |lhs.words|, |rhs.words|;
    if lhs.lastBitsUsed == 64 {
      r := BitArray(lhs.words + rhs.words, rhs.lastBitsUsed);
      assert total == |r.words|;
      Adjoined(lhs, rhs, r);
      JoinBits(lhs, rhs, r);
      return;
    }
    var words := new word[total](i => if 0 <= i < n then lhs.words[i] else 0);
    var rhsShift := lhs.lastBitsUsed;
    var targetWordIdx := n - 1;
    var trailingBits := words[targetWordIdx];
    for i := 0 to m
      invariant targetWordIdx == n - 1 + i && trailingBits == Carried(lhs, rhs, targetWordIdx)
      invariant forall j :: 0 <= j < total ==>
        words[j] == if j < targetWordIdx then JoinedWord(lhs, rhs, j) else if j < n then lhs.words[j] else 0
    {
      var w := rhs.words[i];
      var headingBits := ShiftRight(w, rhsShift);
      var combinedBits := OrWord(trailingBits, headingBits);
      words[targetWordIdx] := combinedBits;
      targetWordIdx := targetWordIdx + 1;
      trailingBits := ShiftLeft(w, 64 - rhsShift);
    }
    var lastBitsUsed := lhs.lastBitsUsed + rhs.lastBitsUsed;
    if lastBitsUsed > 64 {
      NoHeading(lhs, rhs, targetWordIdx);
      words[targetWordIdx] := trailingBits;
    }
    lastBitsUsed := lastBitsUsed % 64;
    if lastBitsUsed == 0 {
      lastBitsUsed := 64;
    }
    r := BitArray(words[..], lastBitsUsed);
    assert forall j :: 0 <= j < total ==> r.words[j] == JoinedWord(lhs, rhs, j);
    AllJoined(lhs, rhs, r);
    JoinBits(lhs, rhs, r);
  }

  lemma NoHeading(lhs: BitArray, rhs: BitArray, j: nat)
    requires lhs.words != [] && lhs.lastBitsUsed <= 64 && j + 1 >= |lhs.words| + |rhs.words|
    ensures JoinedWord(lhs, rhs, j) == Carried(lhs, rhs, j)
  {
    HalvedSmaller(0, lhs.lastBitsUsed);
    OrWordZero(Carried(lhs, rhs, j));
  }

  ghost predicate Joins(lhs: BitArray, rhs: BitArray, r: BitArray)
    requires Shaped(lhs)
  {
    forall p: nat :: At(r.words, p) <==> if p < BitLen(lhs) then At(lhs.words, p) else At(rhs.words, p - BitLen(lhs))
  }

  lemma Adjoined(lhs: BitArray, rhs: BitArray, r: BitArray)
    requires Tidy(lhs) && lhs.lastBitsUsed == 64 && r.words == lhs.words + rhs.words
    ensures Joins(lhs, rhs, r)
  {
  }

  lemma AllJoined(lhs: BitArray, rhs: BitArray, r: BitArray)
    requires Tidy(lhs) && Tidy(rhs) && lhs.words != [] && rhs.words != [] && lhs.lastBitsUsed < 64
    requires |r.words| == (BitLen(lhs) + BitLen(rhs) + 63) / 64
    requires forall j :: 0 <= j < |r.words| ==> r.words[j] == JoinedWord(lhs, rhs, j)
    ensures Joins(lhs, rhs, r)
  {
    hide JoinedWord;
    forall p: nat ensures At(r.words, p) <==> if p < BitLen(lhs) then At(lhs.words, p) else At(rhs.words, p - BitLen(lhs)) {
      if p / 64 < |r.words| {
        JoinedBit(lhs, rhs, p / 64, p % 64);
      } else {
        BeyondWords(r.words, p);
        assert p - BitLen(lhs) >= BitLen(rhs);
      }
    }
  }

  lemma JoinBits(lhs: BitArray, rhs: BitArray, r: BitArray)
    requires Tidy(lhs) && Tidy(rhs) && Shaped(r) && BitLen(r) == BitLen(lhs) + BitLen(rhs) && Joins(lhs, rhs, r)
    ensures Tidy(r) && Bits(r) == Bits(lhs) + Bits(rhs)
  {
    hide At;
  }

  // ------------------------------------------------- text

  predicate Binary(s: string) {
    forall i :: 0 <= i < |s| ==> s[i] == '0' || s[i] == '1'
  }

  /** The booleans a binary numeral stands for. */
  function Digits(s: string): (b: seq<bool>)
    ensures |b| == |s| && forall p: nat :: p < |s| ==> b[p] == (s[p] == '1')
  {
    seq(|s|, p requires 0 <= p < |s| => s[p] == '1')
  }

  function Digit(b: bool): char {
    if b then '1' else '0'
  }

  function Numeral(b: seq<bool>): (s: string)
    ensures |s| == |b| && forall p: nat :: p < |b| ==> s[p] == Digit(b[p])
  {
    seq(|b|, p requires 0 <= p < |b| => Digit(b[p]))
  }

  lemma NumeralInverse(s: string, b: seq<bool>)
    ensures Digits(Numeral(b)) == b
    ensures Binary(s) ==> Numeral(Digits(s)) == s
  {
  }

  datatype Parsed = Ok(d: BitArray) | NotBinary(c: char)

  /** A single bit at position b of a word. */
  lemma OneBit(b: nat, k: nat)
    requires b < 64 && k < 64
    ensures WordBit(ShiftLeft(1, 63 - b), k) <==> k == b
  {
    WordOps(1, 0, 63 - b, k);
    if k + 63 - b < 64 {
      var j := b - k;
      assert BitOf(1, j) <==> j == 0 by { if j > 0 { BitOfZero(j - 1); } }
    }
  }

  /** The words hold the digits up to i, and nothing behind. */
  ghost predicate Holds(words: seq<word>, s: string, i: nat)
    requires i <= |s|
  {
    forall p: nat :: At(words, p) <==> p < i && s[p] == '1'
  }

  /** The current word holds the digits from its start up to i. */
  ghost predicate HoldsWord(w: word, s: string, start: nat, i: nat)
    requires start <= i <= |s|
  {
    forall k: nat :: k < 64 ==> (WordBit(w, k) <==> start + k < i && s[start + k] == '1')
  }

  lemma AddDigit(w: word, s: string, start: nat, i: nat)
    requires start <= i < |s| && i - start < 64 && HoldsWord(w, s, start, i) && (s[i] == '0' || s[i] == '1')
    ensures HoldsWord(OrWord(w, ShiftLeft(if s[i] == '1' then 1 else 0, 63 - (i - start))), s, start, i + 1)
  {
    hide WordBit, OrWord, ShiftLeft;
    var b := i - start;
    var digit := ShiftLeft(if s[i] == '1' then 1 else 0, 63 - b);
    var w' := OrWord(w, digit);
    ShiftsOfZero(63 - b);
    forall k: nat | k < 64 ensures WordBit(w', k) <==> start + k < i + 1 && s[start + k] == '1' {
      WordOps(w, digit, 0, k);
      OneBit(b, k);
      ZeroWord(k);
    }
  }

  lemma StoreWord(words: seq<word>, words': seq<word>, w: word, s: string, j: nat, i: nat)
    requires j < |words| && words' == words[j := w] && j * 64 <= i <= |s| && i <= j * 64 + 64
    requires Holds(words, s, j * 64) && HoldsWord(w, s, j * 64, i)
    ensures Holds(words', s, i)
  {
    hide WordBit;
    forall p: nat ensures At(words', p) <==> p < i && s[p] == '1' {
      assert p / 64 * 64 + p % 64 == p;
      if p / 64 == j {
        assert WordBit(w, p % 64) <==> j * 64 + p % 64 < i && s[j * 64 + p % 64] == '1';
      } else {
        assert At(words', p) <==> At(words, p);
      }
    }
  }

  lemma HoldsNothing(words: seq<word>, s: string, start: nat)
    requires (forall j :: 0 <= j < |words| ==> words[j] == 0) && start <= |s|
    ensures Holds(words, s, 0) && HoldsWord(0, s, start, start)
  {
    forall p: nat ensures !At(words, p) { ZeroWord(p % 64); }
    forall k: nat | k < 64 ensures !WordBit(0, k) { ZeroWord(k); }
  }

  method Parse(s: string) returns (r: Parsed)
    ensures r.Ok? <==> Binary(s)
    ensures r.Ok? ==> Tidy(r.d) && Bits(r.d) == Digits(s)
    ensures r.NotBinary? ==> r.c in s && r.c != '0' && r.c != '1'
  {
    hide WordBit, OrWord, ShiftLeft, At, Holds, HoldsWord;
    if |s| == 0 {
      var d := BitArray([], 0);
      ParsedBits(d, s) by { HoldsNothing([], s, 0); }
      return Ok(d);
    }
    var numWords, lastBitsUsed := SizesForBitLen(|s|);
    var words := new word[numWords](i => 0);
    var wordIdx, bitIdx, curWord := 0, 0, 0 as word;
    HoldsNothing(words[..], s, 0);
    for i := 0 to |s|
      invariant i == wordIdx * 64 + bitIdx && 0 <= bitIdx < 64 && 0 <= wordIdx <= numWords
      invariant forall k :: 0 <= k < i ==> s[k] == '0' || s[k] == '1'
      invariant Holds(words[..], s, wordIdx * 64) && HoldsWord(curWord, s, wordIdx * 64, i)
    {
      var c := s[i];
      if c != '0' && c != '1' {
        return NotBinary(c);
      }
      var bitVal: word := if c == '1' then 1 else 0;
      AddDigit(curWord, s, wordIdx * 64, i);
      curWord := OrWord(curWord, ShiftLeft(bitVal, 63 - bitIdx));
      bitIdx := (bitIdx + 1) % 64;
      if bitIdx == 0 {
        StoreWord(words[..], words[..][wordIdx := curWord], curWord, s, wordIdx, i + 1);
        words[wordIdx] := curWord;
        curWord := 0;
        wordIdx := wordIdx + 1;
        HoldsNothing([], s, wordIdx * 64);
      }
    }
    if bitIdx > 0 {
      StoreWord(words[..], words[..][wordIdx := curWord], curWord, s, wordIdx, |s|);
      words[wordIdx] := curWord;
    }
    var d := BitArray(words[..], lastBitsUsed);
    ParsedBits(d, s);
    return Ok(d);
  }

  lemma ParsedBits(d: BitArray, s: string)
    requires Shaped(d) && BitLen(d) == |s| && Holds(d.words, s, |s|)
    ensures Tidy(d) && Bits(d) == Digits(s)
  {
    hide At;
  }

  /** byteReprs: eight binary digits. */
  function ByteRepr(v: nat): (s: string)
    ensures |s| == 8
  {
    seq(8, k requires 0 <= k < 8 => Digit(BitOf(v, 7 - k)))
  }

  lemma ByteOfWord(w: word, shift: nat, k: nat)
    requires shift <= 56 && k < 8
    ensures ByteRepr(AndWord(ShiftRight(w, shift), 0xff) as nat)[k] == Digit(WordBit(w, 56 - shift + k))
  {
    var byte := AndWord(ShiftRight(w, shift), 0xff);
    WordOps(ShiftRight(w, shift), 0xff, 0, 56 + k);
    WordOps(w, 0, shift, 56 + k);
    assert Pow2(8) == 256;
    OnesBit(8, 7 - k);
    assert WordBit(byte, 56 + k) <==> BitOf(byte as nat, 7 - k);
  }

  method Format(d: BitArray) returns (buf: string)
    requires Tidy(d)
    ensures buf == Numeral(Bits(d))
  {
    hide WordBit, At, AndWord, ShiftRight, ByteRepr;
    var bitLen := BitLen(d);
    LengthIs(d);
    buf := "";
    for i := 0 to bitLen / 64
      invariant |buf| == i * 64 && forall p: nat :: p < i * 64 ==> buf[p] == Digit(At(d.words, p))
    {
      var w := d.words[i];
      var word := FormatWord(w);
      forall p: nat | i * 64 <= p < i * 64 + 64 ensures word[p - i * 64] == Digit(At(d.words, p)) { AtBit(d.words, i, p - i * 64); }
      buf := buf + word;
    }
    var remainingBits := bitLen % 64;
    if remainingBits > 0 {
      var j := bitLen / 64;
      var lastWord := d.words[j];
      var minShift := 64 - 1 - remainingBits;
      var i := 63;
      while i > minShift
        invariant minShift <= i <= 63 && |buf| == j * 64 + (63 - i)
        invariant forall p: nat :: p < |buf| ==> buf[p] == Digit(At(d.words, p))
      {
        var bitVal := AndWord(ShiftRight(lastWord, i), 1);
        LowestBit(lastWord, i);
        AtBit(d.words, j, 63 - i);
        buf := buf + [if bitVal == 1 then '1' else '0'];
        i := i - 1;
      }
    }
    assert |buf| == bitLen;
  }

  lemma LowestBit(w: word, i: nat)
    requires i < 64
    ensures AndWord(ShiftRight(w, i), 1) == (if WordBit(w, 63 - i) then 1 else 0)
  {
    var v := Halved(w as nat, i);
    HalvedBit(w as nat, i, 0);
    assert And(v, 1) == v % 2 by { assert And(v / 2, 0) == 0; }
  }

  method FormatWord(w: word) returns (s: string)
    ensures |s| == 64 && forall k: nat :: k < 64 ==> s[k] == Digit(WordBit(w, k))
  {
    hide WordBit, AndWord, ShiftRight, ByteRepr;
    s := "";
    for b := 0 to 8
      invariant |s| == b * 8 && forall k: nat :: k < b * 8 ==> s[k] == Digit(WordBit(w, k))
    {
      var repr := ByteRepr(AndWord(ShiftRight(w, 56 - 8 * b), 0xff) as nat);
      forall k: nat | b * 8 <= k < b * 8 + 8 ensures repr[k - b * 8] == Digit(WordBit(w, k)) { ByteOfWord(w, 56 - 8 * b, k - b * 8); }
      s := s + repr;
    }
  }

  /** Printing then parsing gives the array back. */
  method ParseFormatted(d: BitArray) returns (r: Parsed)
    requires Tidy(d)
    ensures r == Ok(d)
  {
    var s := Format(d);
    r := Parse(s);
    NumeralInverse(s, Bits(d));
    assert Binary(s);
    Canonical(r.d, d);
  }
}
