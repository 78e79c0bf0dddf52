/** Network addresses: 128-bit arithmetic (pkg/util/uint128/uint128.go) and address blocks
    (pkg/util/ipaddr/ipaddr.go). */
module IpAddrs {
  import opened GoInts
  import opened Bitwise
  import opened BitWords

  // ------------------------------------------------- 128-bit integers

  datatype Uint128 = Uint128(hi: word, lo: word)

  function Value(u: Uint128): nat {
    u.hi as int * TWO64 + u.lo as int
  }

  const TWO128: int := TWO64 * TWO64

  function Wrapped(x: int): word {
    (x % TWO64) as word
  }

  function Add(u: Uint128, n: word): Uint128 {
    var lo := Wrapped(u.lo as int + n as int);
    Uint128(if u.lo > lo then Wrapped(u.hi as int + 1) else u.hi, lo)
  }

  function Sub(u: Uint128, n: word): Uint128 {
    var lo := Wrapped(u.lo as int - n as int);
    Uint128(if u.lo < lo then Wrapped(u.hi as int - 1) else u.hi, lo)
  }

  function Compare(u: Uint128, o: Uint128): int {
    if u.hi > o.hi then 1 else if u.hi < o.hi then -1 else if u.lo > o.lo then 1 else if u.lo < o.lo then -1 else 0
  }

  function And(u: Uint128, o: Uint128): Uint128 {
    Uint128(AndWord(u.hi, o.hi), AndWord(u.lo, o.lo))
  }

  /** The carry makes Add addition modulo 2^128. */
  lemma AddIs(u: Uint128, n: word)
    ensures Value(Add(u, n)) == if Value(u) + n as int < TWO128 then Value(u) + n as int else Value(u) + n as int - TWO128
  {
  }

  lemma SubIs(u: Uint128, n: word)
    ensures Value(Sub(u, n)) == if Value(u) >= n as int then Value(u) - n as int else Value(u) - n as int + TWO128
  {
  }

  lemma CompareIs(u: Uint128, o: Uint128)
    ensures Compare(u, o) == if Value(u) < Value(o) then -1 else if Value(u) > Value(o) then 1 else 0
  {
    if u.hi > o.hi { assert (u.hi as int - o.hi as int) * TWO64 >= TWO64; }
    if u.hi < o.hi { assert (o.hi as int - u.hi as int) * TWO64 >= TWO64; }
  }

  lemma SameValue(u: Uint128, o: Uint128)
    ensures Value(u) == Value(o) <==> u == o
  {
    CompareIs(u, o);
  }

  // ------------------------------------------------- addresses

  datatype Family = V4 | V6
  datatype IpAddr = IpAddr(family: Family, mask: nat, addr: Uint128)
  datatype Answer<+T> = Ok(value: T) | OutOfRange | DifferentSizes

  const V4_PREFIX: word := 0xFFFF_0000_0000
  const V4_MASK: word := 0xFFFF_FFFF

  /** Parsed addresses: IPv4 is mapped into IPv6 and the mask fits the family. */
  predicate Proper(ip: IpAddr) {
    if ip.family.V4? then ip.mask <= 32 && ip.addr.hi == 0 && ip.addr.lo as int / 0x1_0000_0000 == 0xFFFF else ip.mask <= 128
  }

  /** Bits of the host part. */
  function HostBits(ip: IpAddr): nat
    requires Proper(ip)
  {
    if ip.family.V4? then 32 - ip.mask else 128 - ip.mask
  }

  /** Netmask. */
  function Netmask(ip: IpAddr): IpAddr
    requires Proper(ip)
  {
    if ip.family.V4? then
      IpAddr(V4, 32, Uint128(ip.addr.hi, OrWord(AndWord(ShiftLeft(V4_MASK, 32 - ip.mask), V4_MASK), V4_PREFIX)))
    else if ip.mask <= 64 then IpAddr(V6, 128, Uint128(ShiftLeft(ALL_ONES, 64 - ip.mask), 0))
    else IpAddr(V6, 128, Uint128(ALL_ONES, ShiftLeft(ALL_ONES, 128 - ip.mask)))
  }

  /** Broadcast. */
  function Broadcast(ip: IpAddr): IpAddr
    requires Proper(ip)
  {
    var u := ip.addr;
    if ip.family.V4? then ip.(addr := u.(lo := OrWord(u.lo, ShiftRight(ALL_ONES, 32 + ip.mask))))
    else if ip.mask < 64 then ip.(addr := Uint128(OrWord(u.hi, ShiftRight(ALL_ONES, ip.mask)), OrWord(u.lo, ALL_ONES)))
    else ip.(addr := u.(lo := OrWord(u.lo, ShiftRight(ALL_ONES, ip.mask - 64))))
  }

  /** IPAddr.And. */
  function AndIp(ip: IpAddr, other: IpAddr): Answer<IpAddr> {
    if ip.family != other.family then DifferentSizes
    else Ok(IpAddr(ip.family, if ip.mask > other.mask then ip.mask else other.mask, And(ip.addr, other.addr)))
  }

  /** contains. */
  predicate InSubnet(ip: IpAddr, other: IpAddr)
    requires Proper(ip)
  {
    var addrNetmask := Netmask(ip);
    var o, t := AndIp(other, addrNetmask), AndIp(ip, addrNetmask);
    o.Ok? && t.Ok? && t.value == o.value
  }

  predicate ContainsOrEquals(ip: IpAddr, other: IpAddr)
    requires Proper(ip)
  {
    InSubnet(ip, other) && ip.mask <= other.mask
  }

  predicate Contains(ip: IpAddr, other: IpAddr)
    requires Proper(ip)
  {
    InSubnet(ip, other) && ip.mask < other.mask
  }

  predicate ContainsOrContainedBy(ip: IpAddr, other: IpAddr)
    requires Proper(ip) && Proper(other)
  {
    InSubnet(ip, other) || InSubnet(other, ip)
  }

  // ------------------------------------------------- multiples

  /** v rounded down to a multiple of p. */
  function Floor(v: nat, p: nat): nat
    requires p > 0
  {
    v - v % p
  }

  lemma FloorIs(v: nat, p: nat, q: nat, r: nat)
    requires p > 0 && r < p && v == q * p + r
    ensures Floor(v, p) == q * p
  {
    DivIs(v, p, q, r);
  }

  lemma FloorForm(v: nat, p: nat) returns (q: nat, r: nat)
    requires p > 0
    ensures q == v / p && r < p && v == q * p + r && Floor(v, p) == q * p
  {
    q, r := v / p, v % p;
  }

  /** Rounding to p ignores a multiple of it. */
  lemma FloorSum(hi: nat, k: nat, p: nat, lo: nat)
    requires p > 0
    ensures Floor(hi * (k * p) + lo, p) == hi * (k * p) + Floor(lo, p)
  {
    var q, r := FloorForm(lo, p);
    assert hi * (k * p) == (hi * k) * p;
    assert (hi * k + q) * p == (hi * k) * p + q * p;
    FloorIs(hi * (k * p) + lo, p, hi * k + q, r);
  }

  /** Rounding to p units of t is rounding the number of units. */
  lemma FloorScale(hi: nat, p: nat, t: nat, lo: nat)
    requires p > 0 && lo < t
    ensures p * t > 0 && Floor(hi * t + lo, p * t) == Floor(hi, p) * t
  {
    var q, r := FloorForm(hi, p);
    Distribute(q, p, r, t);
    assert (p - r) * t >= t by { Least(p - r, t); }
    assert (p - r) * t == p * t - r * t;
    FloorIs(hi * t + lo, p * t, q, r * t + lo);
  }

  lemma Distribute(q: nat, p: nat, r: nat, t: nat)
    ensures (q * p + r) * t == q * (p * t) + r * t && (q * p) * t == q * (p * t)
  {
  }

  lemma Least(a: int, t: nat)
    requires a >= 1
    ensures a * t >= t
  {
  }

  /** A multiple of p within a multiple of m * p. */
  lemma FloorNested(w: nat, m: nat, p: nat)
    requires p > 0 && m > 0
    ensures m * p > 0 && Floor(w, m * p) <= Floor(w, p) && Floor(w, p) + p <= Floor(w, m * p) + m * p
  {
    Least(m, p);
    var x, r := FloorForm(w, p);
    var y, t := FloorForm(w, m * p);
    Multiples(y, m, p);
    if x + 1 <= y * m { Grows(x + 1, y * m, p); }
    if (y + 1) * m <= x { Grows((y + 1) * m, x, p); }
    Grows(y * m, x, p);
    Grows(x, x, p);
    Grows(x + 1, (y + 1) * m, p);
  }

  lemma Multiples(y: nat, m: nat, p: nat)
    ensures y * (m * p) == (y * m) * p && y * (m * p) + m * p == ((y + 1) * m) * p
  {
    assert (y + 1) * m == y * m + m;
    assert (y * m + m) * p == (y * m) * p + m * p;
  }

  lemma Grows(a: nat, b: nat, p: nat)
    requires a <= b
    ensures a * p <= b * p && (a + 1) * p == a * p + p
  {
  }

  /** Two multiples are equal or at least one step apart. */
  lemma FloorApart(v: nat, w: nat, p: nat)
    requires p > 0
    ensures Floor(v, p) == Floor(w, p) || Floor(v, p) + p <= Floor(w, p) || Floor(w, p) + p <= Floor(v, p)
    ensures Floor(w, p) <= w < Floor(w, p) + p
  {
    var x, r := FloorForm(v, p);
    var y, t := FloorForm(w, p);
    if x < y { Least(y - x, p); assert (y - x) * p == y * p - x * p; }
    if y < x { Least(x - y, p); assert (x - y) * p == x * p - y * p; }
  }

  /** Numbers between a multiple and the next round down to it. */
  lemma FloorBetween(v: nat, w: nat, p: nat)
    requires p > 0
    ensures Floor(v, p) == Floor(w, p) <==> Floor(w, p) <= v < Floor(w, p) + p
  {
    FloorApart(v, w, p);
    FloorApart(v, v, p);
  }

  // ------------------------------------------------- masking words

  /** w with its low s bits cleared. */
  function Cleared(w: word, s: nat): nat {
    Floor(w as int, Pow2(s))
  }

  lemma {:induction false} Pow2Sum(a: nat, b: nat)
    ensures Pow2(a + b) == Pow2(a) * Pow2(b)
  {
    if a > 0 {
      Pow2Sum(a - 1, b);
      assert 2 * (Pow2(a - 1) * Pow2(b)) == (2 * Pow2(a - 1)) * Pow2(b);
    }
  }

  lemma ClearIs(w: word, mask: word, s: nat)
    requires s <= 64
    requires forall k: nat :: k < 64 ==> (WordBit(w, k) && WordBit(mask, k) <==> k + s < 64 && WordBit(w, k))
    ensures AndWord(w, mask) as int == Cleared(w, s)
  {
    hide WordBit, AndWord, ShiftLeft, ShiftRight;
    var c := ShiftLeft(ShiftRight(w, s), s);
    forall k: nat | k < 64 ensures WordBit(AndWord(w, mask), k) <==> WordBit(c, k) {
      WordOps(w, mask, 0, k);
      WordOps(ShiftRight(w, s), 0, s, k);
      if k + s < 64 { WordOps(w, 0, s, k + s); }
    }
    SameWord(AndWord(w, mask), c);
    ShiftsAre(w, s);
    Pow2Of64();
    var q, r := FloorForm(w as int, Pow2(s));
    ShiftsAre(ShiftRight(w, s), s);
  }

  /** Setting the low s bits. */
  lemma FillIs(w: word, s: nat)
    requires s <= 64
    ensures OrWord(w, ShiftRight(ALL_ONES, 64 - s)) as int == Cleared(w, s) + Pow2(s) - 1
  {
    hide WordBit, ShiftLeft, ShiftRight, OrWord, AndWord;
    var low := ShiftRight(ALL_ONES, 64 - s);
    var high := ShiftLeft(ALL_ONES, s);
    var c := AndWord(w, high);
    forall k: nat | k < 64 ensures WordBit(OrWord(w, low), k) <==> WordBit(OrWord(c, low), k) {
      WordOps(w, low, 0, k);
      WordOps(c, low, 0, k);
      WordOps(w, high, 0, k);
      HighBit(s, k);
      LowOnes(s, k);
    }
    forall k: nat | k < 64 ensures WordBit(w, k) && WordBit(high, k) <==> k + s < 64 && WordBit(w, k) { HighBit(s, k); }
    ClearIs(w, high, s);
    SameWord(OrWord(w, low), OrWord(c, low));
    OnesValue(s);
    var q, r := FloorForm(w as int, Pow2(s));
    OrWordIs(c, low, q, s);
  }

  lemma HighBit(s: nat, k: nat)
    requires s <= 64 && k < 64
    ensures WordBit(ShiftLeft(ALL_ONES, s), k) <==> k + s < 64
  {
    WordOps(ALL_ONES, 0, s, k);
    if k + s < 64 { OnesWord(k + s); }
  }

  lemma LowOnes(s: nat, k: nat)
    requires s <= 64 && k < 64
    ensures WordBit(ShiftRight(ALL_ONES, 64 - s), k) <==> k + s >= 64
  {
    WordOps(ALL_ONES, 0, 64 - s, k);
    if k + s >= 64 { OnesWord(k - (64 - s)); }
  }

  lemma OnesValue(s: nat)
    requires s <= 64
    ensures ShiftRight(ALL_ONES, 64 - s) as int == Pow2(s) - 1
  {
    ShiftsAre(ALL_ONES, 64 - s);
    Pow2Of64();
    Pow2Sum(64 - s, s);
    var p, q: nat := Pow2(64 - s), Pow2(s) - 1;
    assert p * Pow2(s) == q * p + p;
    DivIs(ALL_ONES as int, p, q, p - 1);
  }

  lemma OrWordIs(c: word, low: word, q: nat, s: nat)
    requires c as int == q * Pow2(s) && low as int == Pow2(s) - 1
    ensures OrWord(c, low) as int == c as int + low as int
  {
    OrDisjoint(q, low as int, s);
  }

  // ------------------------------------------------- blocks of addresses

  /** The address with its low h bits cleared. */
  function Base(v: nat, h: nat): nat {
    Floor(v, Pow2(h))
  }

  /** The first and the last address of the block of ip. */
  function First(ip: IpAddr): nat
    requires Proper(ip)
  {
    Value(And(ip.addr, Netmask(ip).addr))
  }

  function Final(ip: IpAddr): nat
    requires Proper(ip)
  {
    Value(Broadcast(ip).addr)
  }

  /** Clearing the low bits of a two-word value, in the low word or across it. */
  lemma BaseLow(u: Uint128, h: nat)
    requires h <= 64
    ensures Base(Value(u), h) == u.hi as int * TWO64 + Cleared(u.lo, h)
  {
    Pow2Of64();
    Pow2Sum(64 - h, h);
    FloorSum(u.hi as int, Pow2(64 - h), Pow2(h), u.lo as int);
  }

  lemma BaseHigh(u: Uint128, h: nat)
    requires 64 <= h <= 128
    ensures Base(Value(u), h) == Cleared(u.hi, h - 64) * TWO64
  {
    Pow2Of64();
    Pow2Sum(h - 64, 64);
    hide Pow2, Floor;
    var p, m := Pow2(h - 64), Pow2(h);
    FloorScale(u.hi as int, p, TWO64, u.lo as int);
    assert m == p * TWO64;
  }

  /** Masking any address of the family clears the host bits. */
  lemma NetworkIs(ip: IpAddr, other: IpAddr)
    requires Proper(ip) && Proper(other) && ip.family == other.family
    ensures Value(And(other.addr, Netmask(ip).addr)) == Base(Value(other.addr), HostBits(ip))
  {
    hide WordBit, ShiftLeft, ShiftRight, OrWord, AndWord;
    var m, u := Netmask(ip).addr, other.addr;
    if ip.family.V4? {
      V4Masked(ip.mask, u.lo);
      AndZero(u.hi, ip.addr.hi);
      BaseLow(u, 32 - ip.mask);
    } else if ip.mask <= 64 {
      var s := 64 - ip.mask;
      forall k: nat | k < 64 ensures WordBit(u.hi, k) && WordBit(m.hi, k) <==> k + s < 64 && WordBit(u.hi, k) { HighBit(s, k); }
      ClearIs(u.hi, m.hi, s);
      AndZero(u.lo, 0);
      BaseHigh(u, 128 - ip.mask);
    } else {
      var s := 128 - ip.mask;
      forall k: nat | k < 64 ensures WordBit(u.lo, k) && WordBit(m.lo, k) <==> k + s < 64 && WordBit(u.lo, k) { HighBit(s, k); }
      ClearIs(u.lo, m.lo, s);
      AndOnes(u.hi);
      BaseLow(u, s);
    }
  }

  lemma AndZero(a: word, b: word)
    requires a == 0 || b == 0
    ensures AndWord(a, b) == 0
  {
  }

  lemma AndOnes(a: word)
    ensures AndWord(a, ALL_ONES) == a
  {
    hide WordBit, AndWord;
    forall k: nat | k < 64 ensures WordBit(AndWord(a, ALL_ONES), k) <==> WordBit(a, k) {
      WordOps(a, ALL_ONES, 0, k);
      OnesWord(k);
    }
    SameWord(AndWord(a, ALL_ONES), a);
  }

  /** Bits of 2^n - 1 and of the IPv4 prefix, from the left. */
  lemma LowMaskBit(n: nat, w: word, k: nat)
    requires n <= 64 && k < 64 && w as int == Pow2(n) - 1
    ensures WordBit(w, k) <==> k + n >= 64
  {
    OnesBit(n, 63 - k);
  }

  lemma V4Constants()
    ensures V4_MASK as int == Pow2(32) - 1 && 0xFFFF == Pow2(16) - 1 && Pow2(48) == 0x1_0000_0000_0000
  {
    Pow2Plus8(0);
    Pow2Plus8(8);
    Pow2Plus8(16);
    Pow2Plus8(24);
    Pow2Plus8(32);
    Pow2Plus8(40);
  }

  lemma V4PrefixBit(k: nat)
    requires k < 64
    ensures WordBit(V4_PREFIX, k) <==> 16 <= k < 32
  {
    V4Constants();
    var w: word := 0xFFFF;
    DoubledIs(0xFFFF, 32);
    assert Doubled(0xFFFF, 32) == V4_PREFIX as int;
    DoubledBit(0xFFFF, 32, 63 - k);
    if 63 - k >= 32 { OnesBit(16, 31 - k); }
  }

  lemma V4Masked(mask: nat, lo: word)
    requires mask <= 32 && lo as int / 0x1_0000_0000 == 0xFFFF
    ensures AndWord(lo, OrWord(AndWord(ShiftLeft(V4_MASK, 32 - mask), V4_MASK), V4_PREFIX)) as int == Cleared(lo, 32 - mask)
  {
    hide WordBit, ShiftLeft, OrWord, AndWord;
    var m := OrWord(AndWord(ShiftLeft(V4_MASK, 32 - mask), V4_MASK), V4_PREFIX);
    var s := 32 - mask;
    V4Constants();
    forall k: nat | k < 64 ensures WordBit(lo, k) && WordBit(m, k) <==> k + s < 64 && WordBit(lo, k) {
      WordOps(AndWord(ShiftLeft(V4_MASK, s), V4_MASK), V4_PREFIX, 0, k);
      WordOps(ShiftLeft(V4_MASK, s), V4_MASK, 0, k);
      WordOps(V4_MASK, 0, s, k);
      LowMaskBit(32, V4_MASK, k);
      if k + s < 64 { LowMaskBit(32, V4_MASK, k + s); }
      V4PrefixBit(k);
      if k < 16 { SmallWord(lo, k); }
    }
    ClearIs(lo, m, s);
  }

  lemma SmallWord(lo: word, k: nat)
    requires lo as int < 0x1_0000_0000_0000 && k < 16
    ensures !WordBit(lo, k)
  {
    V4Constants();
    BeyondBits(lo as int, 48, 63 - k);
  }

  /** The broadcast address ends the block that starts at the network address. */
  lemma BlockIs(ip: IpAddr)
    requires Proper(ip)
    ensures First(ip) == Base(Value(ip.addr), HostBits(ip))
    ensures Final(ip) == First(ip) + Pow2(HostBits(ip)) - 1
  {
    hide ShiftRight, OrWord, ShiftLeft, AndWord;
    var u, h := ip.addr, HostBits(ip);
    NetworkIs(ip, ip);
    if ip.family.V4? {
      FillIs(u.lo, h);
      BaseLow(u, h);
    } else if ip.mask < 64 {
      FillIs(u.hi, h - 64);
      FillIs(u.lo, 64);
      ShiftNothing(ALL_ONES);
      BaseHigh(u, h);
      Pow2Of64();
      Pow2Sum(h - 64, 64);
      SmallCleared(u.lo, 64);
    } else {
      FillIs(u.lo, h);
      BaseLow(u, h);
    }
  }

  lemma ShiftNothing(w: word)
    ensures ShiftRight(w, 0) == w
  {
  }

  lemma SmallCleared(w: word, s: nat)
    requires s == 64
    ensures Cleared(w, s) == 0
  {
    Pow2Of64();
  }

  // ------------------------------------------------- containment of blocks

  lemma BaseRange(v: nat, w: nat, h: nat)
    ensures Base(v, h) == Base(w, h) <==> Base(w, h) <= v <= Base(w, h) + Pow2(h) - 1
    ensures Base(v, h) <= v <= Base(v, h) + Pow2(h) - 1
  {
    FloorBetween(v, w, Pow2(h));
    FloorBetween(v, v, Pow2(h));
  }

  /** contains says that the other address lies in the block. */
  lemma InSubnetIs(ip: IpAddr, other: IpAddr)
    requires Proper(ip) && Proper(other)
    ensures InSubnet(ip, other) <==> ip.family == other.family && First(ip) <= Value(other.addr) <= Final(ip)
  {
    hide Netmask, Base;
    if ip.family == other.family {
      MasksEqual(ip, other);
      NetworkIs(ip, other);
      BlockIs(ip);
      BaseRange(Value(other.addr), Value(ip.addr), HostBits(ip));
      SameValue(And(ip.addr, Netmask(ip).addr), And(other.addr, Netmask(ip).addr));
    }
  }

  lemma MasksEqual(ip: IpAddr, other: IpAddr)
    requires Proper(ip) && Proper(other) && ip.family == other.family
    ensures Netmask(ip).family == ip.family && Netmask(ip).mask >= ip.mask && Netmask(ip).mask >= other.mask
  {
  }

  /** Two aligned blocks whose sizes are powers of two are nested or disjoint. */
  lemma Nested(w: nat, h: nat, g: nat)
    requires g <= h
    ensures Base(w, h) <= Base(w, g) && Base(w, g) + Pow2(g) <= Base(w, h) + Pow2(h)
  {
    Pow2Sum(h - g, g);
    FloorNested(w, Pow2(h - g), Pow2(g));
  }

  /** Containment either way holds exactly when the blocks have an address in common. */
  lemma OverlapIs(a: IpAddr, b: IpAddr)
    requires Proper(a) && Proper(b)
    ensures ContainsOrContainedBy(a, b) <==> a.family == b.family && First(a) <= Final(b) && First(b) <= Final(a)
  {
    hide InSubnet, First, Final, Base;
    InSubnetIs(a, b);
    InSubnetIs(b, a);
    if a.family == b.family {
      BlockIs(a);
      BlockIs(b);
      var v, w, h, g := Value(a.addr), Value(b.addr), HostBits(a), HostBits(b);
      BaseRange(v, v, h);
      BaseRange(w, w, g);
      if g <= h {
        Nested(w, h, g);
        Apart(v, w, h);
      } else {
        Nested(v, g, h);
        Apart(w, v, g);
      }
    }
  }

  /** Blocks of one size are equal or a whole block apart. */
  lemma Apart(v: nat, w: nat, h: nat)
    ensures Base(v, h) == Base(w, h) || Base(v, h) + Pow2(h) <= Base(w, h) || Base(w, h) + Pow2(h) <= Base(v, h)
    ensures Base(w, h) <= w <= Base(w, h) + Pow2(h) - 1
  {
    FloorApart(v, w, Pow2(h));
  }

  /** Containing or equalling is inclusion of blocks, so it is transitive. */
  lemma InclusionIs(a: IpAddr, b: IpAddr)
    requires Proper(a) && Proper(b)
    ensures ContainsOrEquals(a, b) <==> a.family == b.family && First(a) <= First(b) && Final(b) <= Final(a)
    ensures Contains(a, b) <==> a.family == b.family && First(a) <= First(b) && Final(b) <= Final(a) && Final(b) - First(b) < Final(a) - First(a)
  {
    hide InSubnet, First, Final, Base;
    InSubnetIs(a, b);
    if a.family == b.family {
      BlockIs(a);
      BlockIs(b);
      var v, w, h, g := Value(a.addr), Value(b.addr), HostBits(a), HostBits(b);
      BaseRange(w, w, g);
      SizesGrow(h, g);
      SizesGrow(g, h);
      if g <= h {
        Nested(w, h, g);
        Apart(v, w, h);
      }
    }
  }

  lemma {:induction false} SizesGrow(h: nat, g: nat)
    ensures h < g ==> Pow2(h) < Pow2(g)
    decreases g
  {
    if h < g { SizesGrow(h, g - 1); }
  }

  lemma ContainmentTransitive(a: IpAddr, b: IpAddr, c: IpAddr)
    requires Proper(a) && Proper(b) && Proper(c) && ContainsOrEquals(a, b) && ContainsOrEquals(b, c)
    ensures ContainsOrEquals(a, c)
  {
    hide ContainsOrEquals, First, Final;
    InclusionIs(a, b);
    InclusionIs(b, c);
    InclusionIs(a, c);
  }

  // ------------------------------------------------- address arithmetic

  function V4Host(u: Uint128): (w: word)
    ensures w <= V4_MASK
  {
    AndBound(u.lo as int, V4_MASK as int);
    AndWord(u.lo, V4_MASK)
  }

  /** ipv4Add, ipv4Sub, ipv6Add, ipv6Sub. */
  function AddAddr(family: Family, u: Uint128, o: word): Answer<Uint128> {
    if family.V4? then
      if o > V4_MASK || V4_MASK - o < V4Host(u) then OutOfRange else Ok(Add(u, o))
    else if Compare(Add(u, o), u) < 0 then OutOfRange
    else Ok(Add(u, o))
  }

  function SubAddr(family: Family, u: Uint128, o: word): Answer<Uint128> {
    if family.V4? then
      if o > V4_MASK || V4Host(u) < o then OutOfRange else Ok(Sub(u, o))
    else if Compare(Sub(u, o), u) > 0 then OutOfRange
    else Ok(Sub(u, o))
  }

  /** sum: the magnitude of the least int64 is written out. */
  function Sum(ip: IpAddr, o: int64, neg: bool): Answer<IpAddr> {
    var x: int := o;
    var o2: word := if x >= 0 then x as word else if x == -TWO63 then 0x8000_0000_0000_0000 else (-x) as word;
    var r := if neg == (x < 0) then AddAddr(ip.family, ip.addr, o2) else SubAddr(ip.family, ip.addr, o2);
    match r
    case Ok(u) => Ok(ip.(addr := u))
    case OutOfRange => OutOfRange
    case DifferentSizes => DifferentSizes
  }

  /** Subtraction word by word, with a borrow. */
  function Borrowed(x: Uint128, o: Uint128): (word, word) {
    var lo := Wrapped(x.lo as int - o.lo as int);
    (Wrapped(x.hi as int - o.hi as int - if lo > x.lo then 1 else 0), lo)
  }

  lemma BorrowedIs(x: Uint128, o: Uint128)
    requires Value(x) >= Value(o)
    ensures Value(Uint128(Borrowed(x, o).0, Borrowed(x, o).1)) == Value(x) - Value(o)
  {
  }

  /** SubIPAddr. */
  function SubIpAddr(ip: IpAddr, other: IpAddr): Answer<int64> {
    if ip.family != other.family then DifferentSizes
    else if ip.family.V4? then Ok((V4Host(ip.addr) as int - V4Host(other.addr) as int) as int64)
    else
      var negative := Compare(ip.addr, other.addr) < 0;
      var x, o := if negative then other.addr else ip.addr, if negative then ip.addr else other.addr;
      var (hi, lo) := Borrowed(x, o);
      if hi != 0 then OutOfRange
      else if lo == 0x8000_0000_0000_0000 && negative then Ok(-TWO63)
      else if lo as int > MAX_INT64 then OutOfRange
      else Ok((if negative then -(lo as int) else lo as int) as int64)
  }

  /** The number of an address within its family. */
  function Number(ip: IpAddr): nat
    requires Proper(ip)
  {
    if ip.family.V4? then ip.addr.lo as int % 0x1_0000_0000 else Value(ip.addr)
  }

  function Size(family: Family): nat {
    if family.V4? then 0x1_0000_0000 else TWO128
  }

  lemma V4HostIs(u: Uint128)
    ensures V4Host(u) as int == u.lo as int % 0x1_0000_0000
  {
    hide AndWord;
    V4Constants();
    var m := u.lo as int % 0x1_0000_0000;
    var q := u.lo as int / 0x1_0000_0000;
    hide WordBit;
    var high: word := NotWord(V4_MASK);
    forall k: nat | k < 64 ensures WordBit(u.lo, k) && WordBit(high, k) <==> k + 32 < 64 && WordBit(u.lo, k) {
      WordOps(V4_MASK, 0, 0, k);
      LowMaskBit(32, V4_MASK, k);
    }
    ClearIs(u.lo, high, 32);
    forall k: nat | k < 64 ensures WordBit(AndWord(u.lo, V4_MASK), k) <==> WordBit(m as word, k) {
      WordOps(u.lo, V4_MASK, 0, k);
      LowMaskBit(32, V4_MASK, k);
      LowWordBit(u.lo, k);
    }
    SameWord(AndWord(u.lo, V4_MASK), m as word);
  }

  /** Bits of the remainder modulo 2^32. */
  lemma LowWordBit(w: word, k: nat)
    requires k < 64
    ensures WordBit((w as int % 0x1_0000_0000) as word, k) <==> k >= 32 && WordBit(w, k)
  {
    V4Constants();
    LowIs(w as int, 32);
    LowBit(w as int, 32, 63 - k);
  }

  lemma {:induction false} LowIs(v: nat, n: nat)
    ensures Low(v, n) == v % Pow2(n)
  {
    if n > 0 {
      LowIs(v / 2, n - 1);
      HalfRemainder(v, Pow2(n - 1));
    }
  }

  lemma HalfRemainder(v: nat, p: nat)
    requires p > 0
    ensures v % (2 * p) == 2 * (v / 2 % p) + v % 2
  {
    var half := v / 2;
    var q, r := FloorForm(half, p);
    Multiples(q, 2, p);
    assert v == q * (2 * p) + (2 * r + v % 2) by { assert (q * 2) * p == 2 * (q * p); }
    FloorIs(v, 2 * p, q, 2 * r + v % 2);
  }

  /** Adding or subtracting succeeds exactly when the true number is an address, and gives it. */
  lemma SumIs(ip: IpAddr, o: int64, neg: bool)
    requires Proper(ip)
    ensures var n := if neg then Number(ip) - o else Number(ip) + o;
            var r := Sum(ip, o, neg);
            if 0 <= n < Size(ip.family) then r.Ok? && Proper(r.value) && Number(r.value) == n && r.value.family == ip.family
            else r == OutOfRange
  {
    hide AddAddr, SubAddr;
    var x: int := o;
    var o2: word := if x >= 0 then x as word else if x == -TWO63 then 0x8000_0000_0000_0000 else (-x) as word;
    StepIs(ip, o2);
  }

  /** The four helpers on a magnitude. */
  lemma StepIs(ip: IpAddr, o: word)
    requires Proper(ip)
    ensures var up := AddAddr(ip.family, ip.addr, o);
            if Number(ip) + o as int < Size(ip.family)
            then up.Ok? && Proper(ip.(addr := up.value)) && Number(ip.(addr := up.value)) == Number(ip) + o as int
            else up == OutOfRange
    ensures var down := SubAddr(ip.family, ip.addr, o);
            if Number(ip) >= o as int
            then down.Ok? && Proper(ip.(addr := down.value)) && Number(ip.(addr := down.value)) == Number(ip) - o as int
            else down == OutOfRange
  {
    hide AndWord;
    if ip.family.V4? {
      V4HostIs(ip.addr);
    } else {
      hide Add, Sub, Compare;
      AddIs(ip.addr, o);
      SubIs(ip.addr, o);
      CompareIs(Add(ip.addr, o), ip.addr);
      CompareIs(Sub(ip.addr, o), ip.addr);
      ValueBound(ip.addr);
    }
  }

  lemma ValueBound(u: Uint128)
    ensures Value(u) < TWO128
  {
  }

  /** The difference is given exactly when it fits an int64. */
  lemma DifferenceIs(ip: IpAddr, other: IpAddr)
    requires Proper(ip) && Proper(other)
    ensures SubIpAddr(ip, other) ==
      if ip.family != other.family then DifferentSizes
      else
        var d: int := Number(ip) - Number(other);
        if -TWO63 <= d < TWO63 then Ok(d) else OutOfRange
  {
    hide AndWord, Borrowed, Compare;
    V4HostIs(ip.addr);
    V4HostIs(other.addr);
    CompareIs(ip.addr, other.addr);
    if Value(ip.addr) >= Value(other.addr) { BorrowedIs(ip.addr, other.addr); } else { BorrowedIs(other.addr, ip.addr); }
  }

  /** The difference undoes the addition. */
  lemma AddThenSub(ip: IpAddr, k: int64)
    requires Proper(ip)
    ensures Sum(ip, k, false).Ok? <==> 0 <= Number(ip) + k < Size(ip.family)
    ensures Sum(ip, k, false).Ok? ==> SubIpAddr(Sum(ip, k, false).value, ip) == Ok(k)
  {
    hide Sum, SubIpAddr, Number;
    SumIs(ip, k, false);
    if Sum(ip, k, false).Ok? { DifferenceIs(Sum(ip, k, false).value, ip); }
  }
}
