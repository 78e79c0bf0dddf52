/** The order of bit arrays is the lexicographic order of their booleans
    (Compare and Next in pkg/util/bitarray/bitarray.go). */
module BitArrayOrder {
  import opened Bitwise
  import opened BitWords
  import opened BitArrays
  import opened BitArrayOps
  import opened ByteStrings
  import KeyBitArray

  /** a precedes b: at the first difference a has false, or a is a proper prefix. */
  ghost predicate Precedes(a: seq<bool>, b: seq<bool>) {
    exists p: nat :: DiffersAt(a, b, p)
  }

  predicate DiffersAt(a: seq<bool>, b: seq<bool>, p: nat) {
    && p <= |a| && p < |b| && a[..p] == b[..p]
    && (p < |a| ==> !a[p] && b[p])
  }

  lemma PrecedesAsymmetric(a: seq<bool>, b: seq<bool>)
    requires Precedes(a, b)
    ensures !Precedes(b, a) && a != b
  {
    var p: nat :| DiffersAt(a, b, p);
    forall q: nat ensures !DiffersAt(b, a, q) { NotBoth(a, b, p, q); }
  }

  lemma NotBoth(a: seq<bool>, b: seq<bool>, p: nat, q: nat)
    ensures !(DiffersAt(a, b, p) && DiffersAt(b, a, q))
  {
    if p < q <= |a| && q <= |b| { assert a[..q][p] == a[p] && b[..q][p] == b[p]; }
    if q < p <= |a| && p <= |b| { assert a[..p][q] == a[q] && b[..p][q] == b[q]; }
  }

  // ------------------------------------------------- words

  /** The smaller number has a zero at the highest bit where two numbers differ. */
  lemma {:induction false} HighestDifference(a: nat, b: nat, n: nat) returns (j: nat)
    requires a < b < Pow2(n)
    ensures j < n && !BitOf(a, j) && BitOf(b, j) && forall i: nat :: j < i < n ==> (BitOf(a, i) <==> BitOf(b, i))
  {
    if a / 2 == b / 2 {
      j := 0;
      forall i: nat | 0 < i < n ensures BitOf(a, i) <==> BitOf(b, i) { }
    } else {
      var h := HighestDifference(a / 2, b / 2, n - 1);
      j := h + 1;
      forall i: nat | j < i < n ensures BitOf(a, i) <==> BitOf(b, i) {
        assert BitOf(a / 2, i - 1) <==> BitOf(b / 2, i - 1);
      }
    }
  }

  lemma FirstDifference(a: word, b: word) returns (k: nat)
    requires a < b
    ensures k < 64 && !WordBit(a, k) && WordBit(b, k) && forall i: nat :: i < k ==> (WordBit(a, i) <==> WordBit(b, i))
  {
    Pow2Of64();
    var j := HighestDifference(a as int, b as int, 64);
    k := 63 - j;
  }

  /** Where two lists of words first differ. */
  lemma {:induction false} FirstWord(a: seq<word>, b: seq<word>) returns (j: nat)
    requires CompareWords(a, b) < 0
    ensures j <= |a| && j < |b| && a[..j] == b[..j] && (j < |a| ==> a[j] < b[j])
    decreases |a|
  {
    if a == [] || a[0] < b[0] {
      j := 0;
    } else {
      var t := FirstWord(a[1..], b[1..]);
      j := t + 1;
      assert a[..j] == [a[0]] + a[1..][..t] && b[..j] == [b[0]] + b[1..][..t];
    }
  }

  lemma AgreeBefore(a: seq<word>, b: seq<word>, j: nat)
    requires j <= |a| && j <= |b| && a[..j] == b[..j]
    ensures forall p: nat :: p < j * 64 ==> (At(a, p) <==> At(b, p))
  {
    forall p: nat | p < j * 64 ensures At(a, p) <==> At(b, p) {
      assert a[p / 64] == a[..j][p / 64] == b[p / 64];
    }
  }

  /** From a position where the bits first differ, or where the left side ends. */
  lemma ComparedAt(d: BitArray, e: BitArray, p: nat)
    requires Tidy(d) && Tidy(e) && p <= BitLen(d) && p < BitLen(e)
    requires forall q: nat :: q < p ==> (At(d.words, q) <==> At(e.words, q))
    requires p < BitLen(d) ==> !At(d.words, p) && At(e.words, p)
    ensures Precedes(Bits(d), Bits(e))
  {
    hide At;
    assert Bits(d)[..p] == Bits(e)[..p];
    assert DiffersAt(Bits(d), Bits(e), p);
  }

  lemma LessPrecedes(d: BitArray, e: BitArray)
    requires Tidy(d) && Tidy(e) && Compare(d, e) < 0
    ensures Precedes(Bits(d), Bits(e))
  {
    hide At, WordBit;
    if CompareWords(d.words, e.words) < 0 {
      var j := FirstWord(d.words, e.words);
      AgreeBefore(d.words, e.words, j);
      if j == |d.words| {
        ComparedAt(d, e, BitLen(d));
      } else {
        var k := FirstDifference(d.words[j], e.words[j]);
        var p := j * 64 + k;
        AtBit(d.words, j, k);
        AtBit(e.words, j, k);
        forall q: nat | q < p ensures At(d.words, q) <==> At(e.words, q) {
          if q >= j * 64 {
            AtBit(d.words, j, q - j * 64);
            AtBit(e.words, j, q - j * 64);
          }
        }
        assert p < BitLen(e);
        ComparedAt(d, e, if p < BitLen(d) then p else BitLen(d));
      }
    } else {
      CompareWordsZero(d.words, e.words);
      ComparedAt(d, e, BitLen(d));
    }
  }

  /** Compare orders bit arrays as sequences of booleans. */
  lemma CompareIsLexicographic(d: BitArray, e: BitArray)
    requires Tidy(d) && Tidy(e)
    ensures Compare(d, e) < 0 <==> Precedes(Bits(d), Bits(e))
    ensures Compare(d, e) == 0 <==> Bits(d) == Bits(e)
    ensures Compare(d, e) > 0 <==> Precedes(Bits(e), Bits(d))
  {
    CompareFlips(d, e);
    if Compare(d, e) < 0 {
      LessPrecedes(d, e);
      PrecedesAsymmetric(Bits(d), Bits(e));
    } else if Compare(d, e) > 0 {
      LessPrecedes(e, d);
      PrecedesAsymmetric(Bits(e), Bits(d));
    } else {
      CompareWordsZero(d.words, e.words);
      assert d == e;
      if Precedes(Bits(d), Bits(e)) { PrecedesAsymmetric(Bits(d), Bits(e)); }
    }
  }

  /** Keys of bit array columns sort as the booleans do, reversed in descending columns. */
  lemma KeyOrderIsBitOrder(d: BitArray, e: BitArray, desc: bool)
    requires Tidy(d) && Tidy(e) && Precedes(Bits(d), Bits(e))
    ensures var kd, ke := KeyBitArray.EncodeBitArray(d, desc), KeyBitArray.EncodeBitArray(e, desc);
            if desc then Before(ke, kd) else Before(kd, ke)
  {
    CompareIsLexicographic(d, e);
    KeyBitArray.BitArrayOrder(d, e, desc);
  }

  lemma CompareFlips(d: BitArray, e: BitArray)
    ensures Compare(e, d) == -Compare(d, e)
  {
    CompareWordsZero(d.words, e.words);
  }

  // ------------------------------------------------- the next bit array

  method Next(d: BitArray) returns (r: BitArray)
    requires Tidy(d)
    ensures Tidy(r) && Bits(r) == Bits(d) + [false]
  {
    hide At;
    if d.lastBitsUsed == 0 {
      r := BitArray([0], 1);
      ZeroBits(r);
      assert Bits(d) == [];
      return;
    }
    if d.lastBitsUsed < 64 {
      return d.(lastBitsUsed := d.lastBitsUsed + 1);
    }
    var words := d.words + [0];
    Padded(d, words);
    return BitArray(words, 1);
  }

  /** Nothing lies between a bit array and the one with a zero added. */
  lemma NothingBetween(a: seq<bool>, b: seq<bool>)
    ensures Precedes(a, a + [false])
    ensures Precedes(a, b) ==> b == a + [false] || Precedes(a + [false], b)
  {
    var next := a + [false];
    assert DiffersAt(a, next, |a|) by { assert next[..|a|] == a == a[..|a|]; }
    if Precedes(a, b) && b != next {
      var p: nat :| DiffersAt(a, b, p);
      if p < |a| {
        assert next[..p] == a[..p];
        assert DiffersAt(next, b, p);
      } else if b[p] {
        assert next[..p] == a[..p] == a;
        assert DiffersAt(next, b, p);
      } else {
        assert b[..p] == a;
        assert b[..p + 1] == b[..p] + [b[p]] == next;
        assert b == b[..p + 1] + b[p + 1..];
        assert next[..p + 1] == next;
        assert DiffersAt(next, b, p + 1);
      }
    }
  }
}
