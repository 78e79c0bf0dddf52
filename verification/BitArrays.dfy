/** Packed bit strings (pkg/util/bitarray/bitarray.go): the value and its order. */
module BitArrays {
  import opened BitWords

  /** Bits fill each word from its most significant end. */
  datatype BitArray = BitArray(words: seq<word>, lastBitsUsed: nat)

  function CompareWords(a: seq<word>, b: seq<word>): int {
    if a == [] then (if b == [] then 0 else -1)
    else if b == [] then 1
    else if a[0] < b[0] then -1
    else if a[0] > b[0] then 1
    else CompareWords(a[1..], b[1..])
  }

  /** Compare: words first, then length in words, then bits used in the last word. */
  function Compare(lhs: BitArray, rhs: BitArray): int {
    var c := CompareWords(lhs.words, rhs.words);
    if c != 0 then c
    else if lhs.lastBitsUsed < rhs.lastBitsUsed then -1
    else if lhs.lastBitsUsed > rhs.lastBitsUsed then 1
    else 0
  }

  lemma {:induction false} CompareWordsZero(a: seq<word>, b: seq<word>)
    ensures CompareWords(a, b) == 0 <==> a == b
    ensures CompareWords(b, a) == -CompareWords(a, b)
  {
    if a != [] && b != [] && a[0] == b[0] {
      CompareWordsZero(a[1..], b[1..]);
      assert a == [a[0]] + a[1..] && b == [b[0]] + b[1..];
    }
  }

  /** Compare is a loop over the common words in the source. */
  method CompareLoop(lhs: BitArray, rhs: BitArray) returns (c: int)
    ensures c == Compare(lhs, rhs)
  {
    var n := if |lhs.words| > |rhs.words| then |rhs.words| else |lhs.words|;
    var i := 0;
    while i < n
      invariant 0 <= i <= n
      invariant CompareWords(lhs.words, rhs.words) == CompareWords(lhs.words[i..], rhs.words[i..])
    {
      var lw, rw := lhs.words[i], rhs.words[i];
      if lw < rw { return -1; }
      if lw > rw { return 1; }
      assert lhs.words[i..][1..] == lhs.words[i + 1..] && rhs.words[i..][1..] == rhs.words[i + 1..];
      i := i + 1;
    }
    if i < |rhs.words| { return -1; }
    if i < |lhs.words| { return 1; }
    if lhs.lastBitsUsed < rhs.lastBitsUsed { return -1; }
    if lhs.lastBitsUsed > rhs.lastBitsUsed { return 1; }
    return 0;
  }
}
