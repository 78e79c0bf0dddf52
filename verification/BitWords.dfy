/** Go's bitwise operators on 64-bit words, bit by bit. */
module BitWords {
  import opened Bitwise

  const BITS_PER_WORD := 64
  newtype word = x: int | 0 <= x < 0x1_0000_0000_0000_0000
  const ALL_ONES: word := 0xFFFF_FFFF_FFFF_FFFF

  // ------------------------------------------------- natural numbers

  /** Bit j of v, from the least significant. */
  predicate BitOf(v: nat, j: nat) {
    if j == 0 then v % 2 == 1 else BitOf(v / 2, j - 1)
  }

  /** v << s without truncation. */
  function Doubled(v: nat, s: nat): nat {
    if s == 0 then v else 2 * Doubled(v, s - 1)
  }

  /** v >> s. */
  function Halved(v: nat, s: nat): nat {
    if s == 0 then v else Halved(v / 2, s - 1)
  }

  /** The low n bits of v. */
  function Low(v: nat, n: nat): nat {
    if n == 0 then 0 else 2 * Low(v / 2, n - 1) + v % 2
  }

  function And(a: nat, b: nat): nat {
    if a == 0 || b == 0 then 0
    else 2 * And(a / 2, b / 2) + if a % 2 == 1 && b % 2 == 1 then 1 else 0
  }

  lemma {:induction false} DoubledIs(v: nat, s: nat)
    ensures Doubled(v, s) == v * Pow2(s)
  {
    if s > 0 {
      DoubledIs(v, s - 1);
      assert v * (2 * Pow2(s - 1)) == 2 * (v * Pow2(s - 1));
    }
  }

  lemma {:induction false} HalvedIs(v: nat, s: nat)
    ensures Halved(v, s) == v / Pow2(s)
  {
    if s > 0 {
      HalvedIs(v / 2, s - 1);
      DivDiv(v, Pow2(s - 1));
    }
  }

  lemma DivDiv(v: nat, p: nat)
    requires p > 0
    ensures v / 2 / p == v / (2 * p)
  {
    var q, r := v / 2 / p, v / 2 % p;
    assert v / 2 == q * p + r;
    assert v == q * (2 * p) + (2 * r + v % 2) by { assert 2 * (q * p) == q * (2 * p); }
    DivIs(v, 2 * p, q, 2 * r + v % 2);
  }

  lemma DivIs(v: nat, m: nat, q: int, r: nat)
    requires m > 0 && r < m && v == q * m + r
    ensures v / m == q
  {
    var d := v / m - q;
    assert v == (v / m) * m + v % m;
    assert d * m == r - v % m by { assert (v / m) * m - q * m == d * m; }
    MulGrows(d, m);
  }

  lemma MulGrows(d: int, m: nat)
    ensures (d > 0 ==> d * m >= m) && (d < 0 ==> d * m + m <= 0)
  {
  }

  lemma {:induction false} BitOfZero(j: nat)
    ensures !BitOf(0, j)
  {
    if j > 0 { BitOfZero(j - 1); }
  }

  lemma {:induction false} DoubledBit(v: nat, s: nat, j: nat)
    ensures BitOf(Doubled(v, s), j) <==> j >= s && BitOf(v, j - s)
  {
    if s > 0 {
      var half := Doubled(v, s - 1);
      assert 2 * half / 2 == half && 2 * half % 2 == 0;
      if j > 0 { DoubledBit(v, s - 1, j - 1); }
    }
  }

  lemma {:induction false} HalvedBit(v: nat, s: nat, j: nat)
    ensures BitOf(Halved(v, s), j) <==> BitOf(v, j + s)
  {
    if s > 0 { HalvedBit(v / 2, s - 1, j); }
  }

  lemma {:induction false} LowBit(v: nat, n: nat, j: nat)
    ensures BitOf(Low(v, n), j) <==> j < n && BitOf(v, j)
  {
    if n == 0 {
      BitOfZero(j);
    } else if j > 0 {
      LowBit(v / 2, n - 1, j - 1);
    }
  }

  lemma {:induction false} LowBound(v: nat, n: nat)
    ensures Low(v, n) < Pow2(n)
    ensures v < Pow2(n) ==> Low(v, n) == v
  {
    if n > 0 { LowBound(v / 2, n - 1); }
  }

  lemma {:induction false} OrBit(a: nat, b: nat, j: nat)
    ensures BitOf(Or(a, b), j) <==> BitOf(a, j) || BitOf(b, j)
  {
    BitOfZero(j);
    if a != 0 && b != 0 && j > 0 { OrBit(a / 2, b / 2, j - 1); }
  }

  lemma {:induction false} OrBound(a: nat, b: nat, n: nat)
    requires a < Pow2(n) && b < Pow2(n)
    ensures Or(a, b) < Pow2(n)
  {
    if n > 0 && a != 0 && b != 0 { OrBound(a / 2, b / 2, n - 1); }
  }

  lemma {:induction false} AndBit(a: nat, b: nat, j: nat)
    ensures BitOf(And(a, b), j) <==> BitOf(a, j) && BitOf(b, j)
  {
    BitOfZero(j);
    if a != 0 && b != 0 && j > 0 { AndBit(a / 2, b / 2, j - 1); }
  }

  lemma {:induction false} AndBound(a: nat, b: nat)
    ensures And(a, b) <= a && And(a, b) <= b
  {
    if a != 0 && b != 0 { AndBound(a / 2, b / 2); }
  }

  /** Numbers with the same low bits are equal. */
  lemma {:induction false} SameBits(a: nat, b: nat, n: nat)
    requires a < Pow2(n) && b < Pow2(n)
    requires forall j: nat :: j < n ==> (BitOf(a, j) <==> BitOf(b, j))
    ensures a == b
  {
    if n > 0 {
      assert BitOf(a, 0) <==> BitOf(b, 0);
      forall j: nat | j < n - 1 ensures BitOf(a / 2, j) <==> BitOf(b / 2, j) {
        assert BitOf(a, j + 1) <==> BitOf(b, j + 1);
      }
      SameBits(a / 2, b / 2, n - 1);
    }
  }

  /** All ones, of n bits. */
  lemma {:induction false} OnesBit(n: nat, j: nat)
    ensures BitOf(Pow2(n) - 1, j) <==> j < n
  {
    if n == 0 {
      BitOfZero(j);
    } else if j > 0 {
      assert (Pow2(n) - 1) / 2 == Pow2(n - 1) - 1;
      OnesBit(n - 1, j - 1);
    }
  }

  /** 2^n - 1 - v flips the low n bits of v. */
  lemma {:induction false} FlippedBit(v: nat, n: nat, j: nat)
    requires v < Pow2(n) && j < n
    ensures BitOf(Pow2(n) - 1 - v, j) <==> !BitOf(v, j)
  {
    if j > 0 {
      assert (Pow2(n) - 1 - v) / 2 == Pow2(n - 1) - 1 - v / 2;
      FlippedBit(v / 2, n - 1, j - 1);
    }
  }

  // ------------------------------------------------- words

  lemma Pow2Of64()
    ensures Pow2(64) == 0x1_0000_0000_0000_0000
  {
    Pow2Plus8(0);
    Pow2Plus8(8);
    Pow2Plus8(16);
    Pow2Plus8(24);
    Pow2Plus8(32);
    Pow2Plus8(40);
    Pow2Plus8(48);
    Pow2Plus8(56);
  }

  lemma Pow2Plus8(n: nat)
    ensures Pow2(n + 8) == 256 * Pow2(n)
  {
    assert Pow2(n + 2) == 4 * Pow2(n);
    assert Pow2(n + 4) == 4 * Pow2(n + 2);
    assert Pow2(n + 6) == 4 * Pow2(n + 4);
    assert Pow2(n + 8) == 4 * Pow2(n + 6);
  }

  /** Bit k of a word, from the most significant: the order in which bit arrays use them. */
  predicate WordBit(w: word, k: nat)
    requires k < 64
  {
    BitOf(w as int, 63 - k)
  }

  function ShiftLeft(w: word, s: nat): word {
    LowBound(Doubled(w as int, s), 64);
    Pow2Of64();
    Low(Doubled(w as int, s), 64) as word
  }

  function ShiftRight(w: word, s: nat): word {
    HalvedSmaller(w as int, s);
    Halved(w as int, s) as word
  }

  lemma {:induction false} HalvedSmaller(v: nat, s: nat)
    ensures Halved(v, s) <= v
  {
    if s > 0 { HalvedSmaller(v / 2, s - 1); }
  }

  function OrWord(a: word, b: word): word {
    Pow2Of64();
    OrBound(a as int, b as int, 64);
    Or(a as int, b as int) as word
  }

  function AndWord(a: word, b: word): word {
    AndBound(a as int, b as int);
    And(a as int, b as int) as word
  }

  function NotWord(a: word): word {
    ALL_ONES - a
  }

  /** The shifts are multiplication and division by powers of two on 64 bits. */
  lemma ShiftsAre(w: word, s: nat)
    ensures ShiftRight(w, s) as int == w as int / Pow2(s)
    ensures w as int * Pow2(s) < Pow2(64) ==> ShiftLeft(w, s) as int == w as int * Pow2(s)
  {
    HalvedIs(w as int, s);
    DoubledIs(w as int, s);
    LowBound(w as int * Pow2(s), 64);
  }

  lemma WordOps(a: word, b: word, s: nat, k: nat)
    requires k < 64
    ensures WordBit(ShiftLeft(a, s), k) <==> k + s < 64 && WordBit(a, k + s)
    ensures WordBit(ShiftRight(a, s), k) <==> k >= s && WordBit(a, k - s)
    ensures WordBit(OrWord(a, b), k) <==> WordBit(a, k) || WordBit(b, k)
    ensures WordBit(AndWord(a, b), k) <==> WordBit(a, k) && WordBit(b, k)
    ensures WordBit(NotWord(a), k) <==> !WordBit(a, k)
  {
    hide BitOf, Low, Doubled, Halved, Or, And;
    var v, j := a as int, 63 - k;
    LowBit(Doubled(v, s), 64, j);
    DoubledBit(v, s, j);
    HalvedBit(v, s, j);
    if k < s { HighBitsZero(v, j + s); }
    OrBit(v, b as int, j);
    AndBit(v, b as int, j);
    Pow2Of64();
    FlippedBit(v, 64, j);
  }

  lemma {:induction false} BeyondBits(v: nat, n: nat, j: nat)
    requires v < Pow2(n) && j >= n
    ensures !BitOf(v, j)
  {
    if n > 0 { BeyondBits(v / 2, n - 1, j - 1); } else { BitOfZero(j); }
  }

  lemma HighBitsZero(v: nat, j: nat)
    requires v < 0x1_0000_0000_0000_0000 && j >= 64
    ensures !BitOf(v, j)
  {
    Pow2Of64();
    BeyondBits(v, 64, j);
  }

  lemma ZeroWord(k: nat)
    requires k < 64
    ensures !WordBit(0, k)
  {
    BitOfZero(63 - k);
  }

  lemma OnesWord(k: nat)
    requires k < 64
    ensures WordBit(ALL_ONES, k)
  {
    Pow2Of64();
    OnesBit(64, 63 - k);
  }

  lemma SameWord(a: word, b: word)
    requires forall k: nat :: k < 64 ==> (WordBit(a, k) <==> WordBit(b, k))
    ensures a == b
  {
    Pow2Of64();
    var x: nat, y: nat := a as int, b as int;
    forall j: nat | j < 64 ensures BitOf(x, j) <==> BitOf(y, j) {
      assert WordBit(a, 63 - j) <==> WordBit(b, 63 - j);
    }
    SameBits(x, y, 64);
  }
}
