/** The numeric side of the decimal codec: powers of ten, digit strings, fractions. */
module DecimalValues {

  newtype digit = x: int | 0 <= x < 10
  newtype cent = x: int | 0 <= x < 100

  function Pow10(k: int): (p: real)
    ensures p > 0.0
    decreases if k < 0 then -k else k
  {
    if k == 0 then 1.0 else if k > 0 then 10.0 * Pow10(k - 1) else Pow10(k + 1) / 10.0
  }

  lemma Pow10Step(k: int)
    ensures Pow10(k + 1) == 10.0 * Pow10(k)
  {
  }

  /** Multiplication under a name, so that proofs can use its laws one at a time. */
  function Times(x: real, y: real): real {
    x * y
  }

  lemma TenTimes(x: real, y: real)
    ensures Times(x, 10.0 * y) == 10.0 * Times(x, y)
  {
  }

  lemma TimesAssoc(x: real, y: real, z: real)
    ensures Times(Times(x, y), z) == Times(x, Times(y, z))
  {
    assert (x * y) * z == x * (y * z);
  }

  lemma TimesSum(x: real, y: real, z: real)
    ensures Times(x + y, z) == Times(x, z) + Times(y, z)
  {
    assert (x + y) * z == x * z + y * z;
  }

  lemma {:induction false} Pow10Add(a: int, b: int)
    ensures Pow10(a + b) == Times(Pow10(a), Pow10(b))
    decreases if b < 0 then -b else b
  {
    if b == 0 {
      assert Pow10(b) == 1.0;
    } else {
      hide *;
      var c := if b > 0 then b - 1 else b;
      Pow10Add(a, if b > 0 then c else b + 1);
      Pow10Step(a + c);
      Pow10Step(c);
      TenTimes(Pow10(a), Pow10(c));
    }
  }

  lemma {:induction false} Pow10Monotone(a: int, b: int)
    requires a <= b
    ensures Pow10(a) <= Pow10(b)
    decreases b - a
  {
    if a < b {
      Pow10Monotone(a, b - 1);
      Pow10Step(b - 1);
    }
  }

  lemma Pow10Injective(a: int, b: int)
    ensures Pow10(a) == Pow10(b) <==> a == b
  {
    hide Pow10;
    if a < b {
      Pow10Monotone(a + 1, b);
      Pow10Step(a);
    } else if b < a {
      Pow10Monotone(b + 1, a);
      Pow10Step(b);
    }
  }

  /** The decimal numeral of n, most significant digit first. */
  function Digits(n: nat): (r: seq<digit>)
    ensures r != [] && (n > 0 ==> r[0] != 0)
  {
    if n < 10 then [n as digit] else Digits(n / 10) + [(n % 10) as digit]
  }

  /** The number a numeral denotes; leading zeros are allowed. */
  function Numeral(t: seq<digit>): nat {
    if t == [] then 0 else Numeral(t[..|t| - 1]) * 10 + t[|t| - 1] as int
  }

  /** 0.t0t1t2... in base ten. */
  function Frac10(t: seq<digit>): (f: real)
    ensures 0.0 <= f < 1.0
  {
    if t == [] then 0.0 else (t[0] as real + Frac10(t[1..])) / 10.0
  }

  /** 0.x0x1x2... in base one hundred. */
  function Frac100(x: seq<cent>): (f: real)
    ensures 0.0 <= f < 1.0
  {
    if x == [] then 0.0 else (x[0] as real + Frac100(x[1..])) / 100.0
  }

  lemma {:induction false} Frac10Append(t: seq<digit>, d: digit)
    ensures Frac10(t + [d]) == Frac10(t) + Times(d as real, Pow10(-|t| - 1))
  {
    if t == [] {
      assert Pow10(-1) == Pow10(0) / 10.0;
      assert (t + [d])[1..] == [];
    } else {
      Frac10Append(t[1..], d);
      assert (t + [d])[1..] == t[1..] + [d];
      var p := Pow10(-|t[1..]| - 1);
      assert Pow10(-|t| - 1) == p / 10.0;
      assert d as real * (p / 10.0) == (d as real * p) / 10.0;
    }
  }

  lemma Frac10TrailingZero(t: seq<digit>)
    ensures Frac10(t + [0]) == Frac10(t)
  {
    Frac10Append(t, 0);
  }

  lemma {:induction false} NumeralIsFrac(t: seq<digit>)
    ensures Numeral(t) as real == Times(Frac10(t), Pow10(|t|))
  {
    if t != [] {
      var s, d := t[..|t| - 1], t[|t| - 1];
      NumeralIsFrac(s);
      assert t == s + [d];
      assert Numeral(t) as real == Numeral(s) as real * 10.0 + d as real;
      ScaleAppended(s, d);
    }
  }

  lemma ScaleAppended(s: seq<digit>, d: digit)
    ensures Times(Frac10(s + [d]), Pow10(|s| + 1)) == 10.0 * Times(Frac10(s), Pow10(|s|)) + d as real
  {
    hide *;
    var n := |s|;
    var p, q := Pow10(n + 1), Pow10(-n - 1);
    Pow10Add(-n - 1, n + 1);
    Pow10Zero();
    TimesOne(d as real);
    Frac10Append(s, d);
    TimesSum(Frac10(s), Times(d as real, q), p);
    TimesAssoc(d as real, q, p);
    Pow10Step(n);
    TenTimes(Frac10(s), Pow10(n));
  }

  lemma Pow10Zero()
    ensures Pow10(0) == 1.0
  {
  }

  lemma TimesOne(x: real)
    ensures Times(x, 1.0) == x
  {
  }

  lemma {:induction false} DigitsNumeral(n: nat)
    ensures Numeral(Digits(n)) == n
  {
    var t := Digits(n);
    if n >= 10 {
      DigitsNumeral(n / 10);
      assert t[..|t| - 1] == Digits(n / 10);
    } else {
      assert t[..0] == [] && Numeral([]) == 0;
    }
  }

  // ------------------------------------------------- trailing zeros

  function StripZeros(t: seq<digit>): (r: seq<digit>)
    ensures |r| <= |t| && (r != [] ==> r[|r| - 1] != 0 && r[0] == t[0])
  {
    if t != [] && t[|t| - 1] == 0 then StripZeros(t[..|t| - 1]) else t
  }

  function TrailingZeros(n: nat): nat
    requires n > 0
  {
    if n % 10 == 0 then 1 + TrailingZeros(n / 10) else 0
  }

  function WithoutZeros(n: nat): (m: nat)
    requires n > 0
    ensures 0 < m <= n
  {
    if n % 10 == 0 then WithoutZeros(n / 10) else n
  }

  /** n == WithoutZeros(n) * 10^TrailingZeros(n). */
  lemma {:induction false} WithoutZerosScale(n: nat)
    requires n > 0
    ensures n as real == Times(WithoutZeros(n) as real, Pow10(TrailingZeros(n)))
  {
    if n % 10 == 0 {
      WithoutZerosScale(n / 10);
      assert n as real == 10.0 * (n / 10) as real;
      Pow10Step(TrailingZeros(n / 10));
      TenTimes(WithoutZeros(n / 10) as real, Pow10(TrailingZeros(n / 10)));
    } else {
      TimesOne(n as real);
    }
  }

  lemma {:induction false} StripNumeral(n: nat)
    requires n > 0
    ensures Numeral(StripZeros(Digits(n))) == WithoutZeros(n)
  {
    var t := Digits(n);
    if n % 10 == 0 {
      StripNumeral(n / 10);
      assert t[..|t| - 1] == Digits(n / 10);
    } else {
      DigitsNumeral(n);
    }
  }

  lemma {:induction false} NumeralLeadingZero(t: seq<digit>)
    ensures Numeral([0] + t) == Numeral(t)
  {
    var u := [0] + t;
    assert u[..|u| - 1] == if t == [] then [] else [0] + t[..|t| - 1];
    if t != [] { NumeralLeadingZero(t[..|t| - 1]); } else { assert Numeral([]) == 0; }
  }

  lemma {:induction false} StripKeepsFrac(t: seq<digit>)
    ensures Frac10(StripZeros(t)) == Frac10(t)
  {
    if t != [] && t[|t| - 1] == 0 {
      StripKeepsFrac(t[..|t| - 1]);
      Frac10TrailingZero(t[..|t| - 1]);
      assert t == t[..|t| - 1] + [0];
    }
  }

  lemma {:induction false} StripLength(n: nat)
    requires n > 0
    ensures |Digits(n)| == |StripZeros(Digits(n))| + TrailingZeros(n) && StripZeros(Digits(n)) != []
  {
    var t := Digits(n);
    if n % 10 == 0 {
      StripLength(n / 10);
      assert t[..|t| - 1] == Digits(n / 10);
    }
  }

  // ------------------------------------------------- digit pairs

  function Pairs(t: seq<digit>): (x: seq<cent>)
    requires |t| % 2 == 0
    ensures |x| * 2 == |t|
  {
    if t == [] then [] else [(10 * t[0] as int + t[1] as int) as cent] + Pairs(t[2..])
  }

  function Unpairs(x: seq<cent>): (t: seq<digit>)
    ensures |t| == 2 * |x|
  {
    if x == [] then [] else [(x[0] as int / 10) as digit, (x[0] as int % 10) as digit] + Unpairs(x[1..])
  }

  lemma {:induction false} PairsFrac(t: seq<digit>)
    requires |t| % 2 == 0
    ensures Frac100(Pairs(t)) == Frac10(t)
    decreases |t|
  {
    if t != [] {
      PairsFrac(t[2..]);
      assert t[1..][1..] == t[2..] && Pairs(t)[1..] == Pairs(t[2..]);
      assert Pairs(t)[0] as real == 10.0 * t[0] as real + t[1] as real;
    }
  }

  lemma {:induction false} UnpairsPairs(t: seq<digit>)
    requires |t| % 2 == 0
    ensures Unpairs(Pairs(t)) == t
    decreases |t|
  {
    if t != [] {
      UnpairsPairs(t[2..]);
      assert Pairs(t)[1..] == Pairs(t[2..]);
      assert t == [t[0], t[1]] + t[2..];
    }
  }

  lemma {:induction false} LastPair(t: seq<digit>)
    requires |t| % 2 == 0 && t != []
    ensures Pairs(t)[|t| / 2 - 1] as int == 10 * t[|t| - 2] as int + t[|t| - 1] as int
    decreases |t|
  {
    if |t| > 2 {
      LastPair(t[2..]);
      assert Pairs(t)[1..] == Pairs(t[2..]);
    }
  }

  lemma FirstPair(t: seq<digit>)
    requires |t| % 2 == 0 && t != []
    ensures Pairs(t)[0] as int == 10 * t[0] as int + t[1] as int
  {
  }

  // ------------------------------------------------- order of canonical fractions

  /** Canonical mantissas: nonempty, no trailing zero centimal digit. */
  predicate Trimmed(x: seq<cent>) {
    x != [] && x[|x| - 1] != 0
  }

  /** Lexicographic order of centimal digits, a proper prefix first. */
  predicate CentLess(x: seq<cent>, y: seq<cent>) {
    y != [] && (x == [] || x[0] < y[0] || (x[0] == y[0] && CentLess(x[1..], y[1..])))
  }

  lemma {:induction false} CentTotal(x: seq<cent>, y: seq<cent>)
    ensures CentLess(x, y) || x == y || CentLess(y, x)
  {
    if x != [] && y != [] && x[0] == y[0] {
      CentTotal(x[1..], y[1..]);
      assert x == [x[0]] + x[1..] && y == [y[0]] + y[1..];
    }
  }

  lemma {:induction false} TrimmedPositive(x: seq<cent>)
    requires Trimmed(x)
    ensures Frac100(x) > 0.0
  {
    if |x| > 1 { TrimmedPositive(x[1..]); }
  }

  lemma {:induction false} FracOrder(x: seq<cent>, y: seq<cent>)
    requires CentLess(x, y) && Trimmed(y)
    ensures Frac100(x) < Frac100(y)
  {
    if x == [] {
      TrimmedPositive(y);
    } else if x[0] == y[0] {
      FracOrder(x[1..], y[1..]);
    }
  }
}
