/** The order of JSON documents (pkg/util/json/json.go). */
module JsonCompare {
  import opened ByteStrings
  import opened Json
  import KeyDecimal
  import opened JsonLazy
  import opened JsonContains

  // ------------------------------------------------- Compare

  function CompareLengths(m: nat, n: nat): int {
    if m < n then -1 else if m > n then 1 else 0
  }

  /** Compare: by type, then by length, then member by member, keys before their values. */
  function CompareJson(a: Json, b: Json): int
    decreases a
  {
    match (a, b)
    case (JArr(xs), JArr(ys)) => if |xs| != |ys| then CompareLengths(|xs|, |ys|) else CompareItems(xs, ys)
    case (JObj(ps), JObj(qs)) => if |ps| != |qs| then CompareLengths(|ps|, |qs|) else ComparePairs(ps, qs)
    case _ => Cmp(a, b)
  }

  function CompareItems(xs: seq<Json>, ys: seq<Json>): int
    requires |xs| == |ys|
    decreases xs
  {
    if xs == [] then 0
    else
      var c := CompareJson(xs[0], ys[0]);
      if c != 0 then c else CompareItems(xs[1..], ys[1..])
  }

  function ComparePairs(ps: seq<Pair>, qs: seq<Pair>): int
    requires |ps| == |qs|
    decreases ps
  {
    if ps == [] then 0
    else
      var key := CompareBytes(ps[0].k, qs[0].k);
      if key != 0 then key
      else
        var c := CompareJson(ps[0].v, qs[0].v);
        if c != 0 then c else ComparePairs(ps[1..], qs[1..])
  }

  /** The Compare methods; the loops stop at the first difference. */
  method Compare(a: Json, b: Json) returns (r: int)
    ensures r == CompareJson(a, b)
    decreases a
  {
    hide Cmp;
    match (a, b) {
      case (JArr(xs), JArr(ys)) =>
        if |xs| < |ys| {
          return -1;
        }
        if |xs| > |ys| {
          return 1;
        }
        for i := 0 to |xs|
          invariant CompareItems(xs, ys) == CompareItems(xs[i..], ys[i..])
        {
          assert xs[i..][1..] == xs[i + 1..] && ys[i..][1..] == ys[i + 1..];
          var c := Compare(xs[i], ys[i]);
          if c != 0 {
            return c;
          }
        }
        return 0;
      case (JObj(ps), JObj(qs)) =>
        if |ps| < |qs| {
          return -1;
        }
        if |ps| > |qs| {
          return 1;
        }
        for i := 0 to |ps|
          invariant ComparePairs(ps, qs) == ComparePairs(ps[i..], qs[i..])
        {
          assert ps[i..][1..] == ps[i + 1..] && qs[i..][1..] == qs[i + 1..];
          var key := CompareBytes(ps[i].k, qs[i].k);
          if key != 0 {
            return key;
          }
          var c := Compare(ps[i].v, qs[i].v);
          if c != 0 {
            return c;
          }
        }
        return 0;
      case _ =>
        return Cmp(a, b);
    }
  }

  // ------------------------------------------------- a total order

  predicate NumericItems(xs: seq<Json>) {
    forall x :: x in xs ==> Numeric(x)
  }

  predicate NumericPairs(ps: seq<Pair>) {
    forall p: Pair :: p in ps ==> Numeric(p.v)
  }

  /** Exchanging the sides negates the result. */
  lemma {:induction false} CompareAntisymmetric(a: Json, b: Json)
    requires Numeric(a) && Numeric(b)
    ensures CompareJson(b, a) == -CompareJson(a, b)
    decreases a
  {
    match (a, b)
    case (JArr(xs), JArr(ys)) => if |xs| == |ys| { ItemsAntisymmetric(xs, ys); }
    case (JObj(ps), JObj(qs)) => if |ps| == |qs| { PairsAntisymmetric(ps, qs); }
    case (JStr(s), JStr(t)) => CompareFlip(s, t);
    case _ =>
  }

  lemma {:induction false} ItemsAntisymmetric(xs: seq<Json>, ys: seq<Json>)
    requires |xs| == |ys| && NumericItems(xs) && NumericItems(ys)
    ensures CompareItems(ys, xs) == -CompareItems(xs, ys)
    decreases xs
  {
    if xs != [] {
      CompareAntisymmetric(xs[0], ys[0]);
      ItemsAntisymmetric(xs[1..], ys[1..]);
    }
  }

  lemma {:induction false} PairsAntisymmetric(ps: seq<Pair>, qs: seq<Pair>)
    requires |ps| == |qs| && NumericPairs(ps) && NumericPairs(qs)
    ensures ComparePairs(qs, ps) == -ComparePairs(ps, qs)
    decreases ps
  {
    if ps != [] {
      CompareFlip(ps[0].k, qs[0].k);
      CompareAntisymmetric(ps[0].v, qs[0].v);
      PairsAntisymmetric(ps[1..], qs[1..]);
    }
  }

  /** Two results that do not go down lead to a third that goes up if one of them does. */
  predicate Chains(ab: int, bc: int, ac: int) {
    ab <= 0 && bc <= 0 ==> ac <= 0 && (ac == 0 ==> ab == 0 && bc == 0)
  }

  /** Compare is transitive on nested documents, strictly where one of the two steps is. */
  lemma {:induction false} CompareTransitive(a: Json, b: Json, c: Json)
    requires Numeric(a) && Numeric(b) && Numeric(c)
    ensures Chains(CompareJson(a, b), CompareJson(b, c), CompareJson(a, c))
    decreases a
  {
    match (a, b, c)
    case (JArr(xs), JArr(ys), JArr(zs)) =>
      if |xs| == |ys| == |zs| { ItemsTransitive(xs, ys, zs); }
    case (JObj(ps), JObj(qs), JObj(rs)) =>
      if |ps| == |qs| == |rs| { PairsTransitive(ps, qs, rs); }
    case (JStr(s), JStr(t), JStr(u)) => KeysTransitive(s, t, u);
    case _ =>
  }

  lemma KeysTransitive(s: bytes, t: bytes, u: bytes)
    ensures Chains(CompareBytes(s, t), CompareBytes(t, u), CompareBytes(s, u))
  {
    if CompareBytes(s, t) < 0 && CompareBytes(t, u) < 0 { CompareChain2(s, t, u); }
  }

  lemma {:induction false} ItemsTransitive(xs: seq<Json>, ys: seq<Json>, zs: seq<Json>)
    requires |xs| == |ys| == |zs| && NumericItems(xs) && NumericItems(ys) && NumericItems(zs)
    ensures Chains(CompareItems(xs, ys), CompareItems(ys, zs), CompareItems(xs, zs))
    decreases xs
  {
    if xs != [] {
      CompareTransitive(xs[0], ys[0], zs[0]);
      ItemsTransitive(xs[1..], ys[1..], zs[1..]);
    }
  }

  lemma {:induction false} PairsTransitive(ps: seq<Pair>, qs: seq<Pair>, rs: seq<Pair>)
    requires |ps| == |qs| == |rs| && NumericPairs(ps) && NumericPairs(qs) && NumericPairs(rs)
    ensures Chains(ComparePairs(ps, qs), ComparePairs(qs, rs), ComparePairs(ps, rs))
    decreases ps
  {
    if ps != [] {
      KeysTransitive(ps[0].k, qs[0].k, rs[0].k);
      CompareTransitive(ps[0].v, qs[0].v, rs[0].v);
      PairsTransitive(ps[1..], qs[1..], rs[1..]);
    }
  }

  // ------------------------------------------------- what equal means

  /** The same document but for the way its numbers are written. */
  ghost predicate Alike(a: Json, b: Json) {
    match (a, b)
    case (JNum(d), JNum(e)) => d.Finite? && e.Finite? && KeyDecimal.Value(d) == KeyDecimal.Value(e)
    case (JArr(xs), JArr(ys)) => |xs| == |ys| && forall i :: 0 <= i < |xs| ==> Alike(xs[i], ys[i])
    case (JObj(ps), JObj(qs)) => |ps| == |qs| && forall i :: 0 <= i < |ps| ==> ps[i].k == qs[i].k && Alike(ps[i].v, qs[i].v)
    case _ => a == b
  }

  /** Exactly such documents compare as equal. */
  lemma {:induction false} CompareZero(a: Json, b: Json)
    requires Numeric(a) && Numeric(b)
    ensures CompareJson(a, b) == 0 <==> Alike(a, b)
    decreases a
  {
    match (a, b)
    case (JArr(xs), JArr(ys)) => if |xs| == |ys| { ItemsZero(xs, ys); }
    case (JObj(ps), JObj(qs)) => if |ps| == |qs| { PairsZero(ps, qs); }
    case _ =>
  }

  lemma {:induction false} ItemsZero(xs: seq<Json>, ys: seq<Json>)
    requires |xs| == |ys| && NumericItems(xs) && NumericItems(ys)
    ensures CompareItems(xs, ys) == 0 <==> forall i :: 0 <= i < |xs| ==> Alike(xs[i], ys[i])
    decreases xs
  {
    hide Alike;
    if xs != [] {
      CompareZero(xs[0], ys[0]);
      ItemsZero(xs[1..], ys[1..]);
      assert forall i :: 1 <= i < |xs| ==> xs[i] == xs[1..][i - 1] && ys[i] == ys[1..][i - 1];
      assert forall i :: 0 <= i < |xs| - 1 ==> xs[1..][i] == xs[i + 1] && ys[1..][i] == ys[i + 1];
    }
  }

  lemma {:induction false} PairsZero(ps: seq<Pair>, qs: seq<Pair>)
    requires |ps| == |qs| && NumericPairs(ps) && NumericPairs(qs)
    ensures ComparePairs(ps, qs) == 0 <==> forall i :: 0 <= i < |ps| ==> ps[i].k == qs[i].k && Alike(ps[i].v, qs[i].v)
    decreases ps
  {
    hide Alike;
    if ps != [] {
      CompareZero(ps[0].v, qs[0].v);
      PairsZero(ps[1..], qs[1..]);
      assert forall i :: 1 <= i < |ps| ==> ps[i] == ps[1..][i - 1] && qs[i] == qs[1..][i - 1];
      assert forall i :: 0 <= i < |ps| - 1 ==> ps[1..][i] == ps[i + 1] && qs[1..][i] == qs[i + 1];
    }
  }

  // ------------------------------------------------- which document is smaller

  /** The declared order of the types. */
  const KINDS := [NullKind, StringKind, NumberKind, FalseKind, TrueKind, ArrayKind, ObjectKind]

  predicate KindBefore(a: Kind, b: Kind) {
    exists i, j :: 0 <= i < j < |KINDS| && KINDS[i] == a && KINDS[j] == b
  }

  /** The order without the loops: by type; numbers by value, strings by their bytes; of arrays or
      objects the shorter, and among equally long ones the first members that are not alike. */
  ghost predicate Below(a: Json, b: Json)
    decreases a
  {
    KindBefore(KindOf(a), KindOf(b)) ||
    match (a, b)
    case (JNum(d), JNum(e)) => d.Finite? && e.Finite? && KeyDecimal.Value(d) < KeyDecimal.Value(e)
    case (JStr(s), JStr(t)) => CompareBytes(s, t) < 0
    case (JArr(xs), JArr(ys)) => |xs| < |ys| || (|xs| == |ys| && exists i: nat :: ItemDecides(xs, ys, i))
    case (JObj(ps), JObj(qs)) => |ps| < |qs| || (|ps| == |qs| && exists i: nat :: PairDecides(ps, qs, i))
    case _ => false
  }

  /** The members at i are the first that are not alike, and there xs is smaller. */
  ghost predicate ItemDecides(xs: seq<Json>, ys: seq<Json>, i: nat)
    requires |xs| == |ys|
    decreases xs
  {
    i < |xs| && (forall k :: 0 <= k < i ==> Alike(xs[k], ys[k])) && Below(xs[i], ys[i])
  }

  /** The same for pairs; a key comes before its value. */
  ghost predicate PairDecides(ps: seq<Pair>, qs: seq<Pair>, i: nat)
    requires |ps| == |qs|
    decreases ps
  {
    && i < |ps| && (forall k :: 0 <= k < i ==> PairAlike(ps[k], qs[k]))
    && (CompareBytes(ps[i].k, qs[i].k) < 0 || (ps[i].k == qs[i].k && Below(ps[i].v, qs[i].v)))
  }

  ghost predicate PairAlike(p: Pair, q: Pair) {
    p.k == q.k && Alike(p.v, q.v)
  }

  lemma KindRanks(a: Json, b: Json)
    ensures KindBefore(KindOf(a), KindOf(b)) <==> TypeRank(a) < TypeRank(b)
  {
    var i, j := TypeRank(a) - 1, TypeRank(b) - 1;
    assert KINDS[i] == KindOf(a) && KINDS[j] == KindOf(b);
    assert forall k :: 0 <= k < |KINDS| ==> (KINDS[k] == KindOf(a) <==> k == i) && (KINDS[k] == KindOf(b) <==> k == j);
  }

  /** Compare is negative exactly if the first document is the smaller one, positive exactly if the
      second is, and it answers with -1, 0 or 1. */
  lemma CompareMeans(a: Json, b: Json)
    requires Numeric(a) && Numeric(b)
    ensures CompareJson(a, b) == if Below(a, b) then -1 else if Below(b, a) then 1 else 0
    ensures CompareJson(a, b) == 0 <==> Alike(a, b)
  {
    CompareBelow(a, b);
    CompareBelow(b, a);
    CompareAntisymmetric(a, b);
    CompareZero(a, b);
  }

  lemma {:induction false} CompareBelow(a: Json, b: Json)
    requires Numeric(a) && Numeric(b)
    ensures CompareJson(a, b) < 0 <==> Below(a, b)
    ensures -1 <= CompareJson(a, b) <= 1
    decreases a
  {
    KindRanks(a, b);
    match (a, b)
    case (JStr(s), JStr(t)) => BytesSigns(s, t);
    case (JArr(xs), JArr(ys)) => if |xs| == |ys| { ItemsCompare(xs, ys); }
    case (JObj(ps), JObj(qs)) => if |ps| == |qs| { PairsCompare(ps, qs); }
    case _ =>
  }

  lemma {:induction false} BytesSigns(s: bytes, t: bytes)
    ensures -1 <= CompareBytes(s, t) <= 1
  {
    if s != [] && t != [] { BytesSigns(s[1..], t[1..]); }
  }

  lemma ItemShift(xs: seq<Json>, ys: seq<Json>, i: nat)
    requires |xs| == |ys| && xs != []
    ensures ItemDecides(xs, ys, i + 1) <==> Alike(xs[0], ys[0]) && ItemDecides(xs[1..], ys[1..], i)
    ensures ItemDecides(xs, ys, 0) <==> Below(xs[0], ys[0])
  {
    hide Alike, Below;
    assert forall k :: 0 <= k < |xs| - 1 ==> xs[1..][k] == xs[k + 1] && ys[1..][k] == ys[k + 1];
    assert forall k :: 1 <= k < |xs| ==> xs[k] == xs[1..][k - 1] && ys[k] == ys[1..][k - 1];
  }

  lemma {:induction false} ItemsCompare(xs: seq<Json>, ys: seq<Json>)
    requires |xs| == |ys| && NumericItems(xs) && NumericItems(ys)
    ensures CompareItems(xs, ys) < 0 <==> exists i: nat :: ItemDecides(xs, ys, i)
    ensures -1 <= CompareItems(xs, ys) <= 1
    decreases xs
  {
    hide Alike, Below, Numeric, ItemDecides;
    if xs == [] {
      assert forall i: nat :: !ItemDecides(xs, ys, i) by { NothingDecides(xs, ys); }
    } else {
      CompareBelow(xs[0], ys[0]);
      CompareZero(xs[0], ys[0]);
      ItemsCompare(xs[1..], ys[1..]);
      ItemShift(xs, ys, 0);
      if i: nat :| ItemDecides(xs, ys, i) {
        if i > 0 { ItemShift(xs, ys, i - 1); }
      }
      if i: nat :| ItemDecides(xs[1..], ys[1..], i) {
        ItemShift(xs, ys, i);
      }
    }
  }

  lemma NothingDecides(xs: seq<Json>, ys: seq<Json>)
    requires xs == [] && ys == []
    ensures forall i: nat :: !ItemDecides(xs, ys, i)
  {
  }

  lemma PairShift(ps: seq<Pair>, qs: seq<Pair>, i: nat)
    requires |ps| == |qs| && ps != []
    ensures PairDecides(ps, qs, i + 1) <==> PairAlike(ps[0], qs[0]) && PairDecides(ps[1..], qs[1..], i)
    ensures PairDecides(ps, qs, 0) <==> CompareBytes(ps[0].k, qs[0].k) < 0 || (ps[0].k == qs[0].k && Below(ps[0].v, qs[0].v))
  {
    hide PairAlike, Below, CompareBytes;
    assert forall k :: 0 <= k < |ps| - 1 ==> ps[1..][k] == ps[k + 1] && qs[1..][k] == qs[k + 1];
    assert forall k :: 1 <= k < |ps| ==> ps[k] == ps[1..][k - 1] && qs[k] == qs[1..][k - 1];
  }

  lemma {:induction false} PairsCompare(ps: seq<Pair>, qs: seq<Pair>)
    requires |ps| == |qs| && NumericPairs(ps) && NumericPairs(qs)
    ensures ComparePairs(ps, qs) < 0 <==> exists i: nat :: PairDecides(ps, qs, i)
    ensures -1 <= ComparePairs(ps, qs) <= 1
    decreases ps
  {
    hide Alike, Below, Numeric, PairDecides;
    if ps == [] {
      assert forall i: nat :: !PairDecides(ps, qs, i) by { NoPairDecides(ps, qs); }
    } else {
      CompareBelow(ps[0].v, qs[0].v);
      CompareZero(ps[0].v, qs[0].v);
      BytesSigns(ps[0].k, qs[0].k);
      PairsCompare(ps[1..], qs[1..]);
      PairShift(ps, qs, 0);
      if i: nat :| PairDecides(ps, qs, i) {
        if i > 0 { PairShift(ps, qs, i - 1); }
      }
      if i: nat :| PairDecides(ps[1..], qs[1..], i) {
        PairShift(ps, qs, i);
      }
    }
  }

  lemma NoPairDecides(ps: seq<Pair>, qs: seq<Pair>)
    requires ps == [] && qs == []
    ensures forall i: nat :: !PairDecides(ps, qs, i)
  {
  }

  /** Documents that compare as equal contain each other. */
  lemma EqualContains(a: Json, b: Json)
    requires Numeric(a) && Numeric(b) && CompareJson(a, b) == 0
    ensures SlowContains(a, b) && SlowContains(b, a)
  {
    CompareAntisymmetric(a, b);
    CompareZero(a, b);
    CompareZero(b, a);
    AlikeIn(a, b);
    AlikeIn(b, a);
  }

  lemma {:induction false} AlikeIn(a: Json, b: Json)
    requires Numeric(a) && Numeric(b) && Alike(a, b)
    ensures SlowIn(a, b)
    decreases a
  {
    match (a, b)
    case (JArr(xs), JArr(ys)) =>
      forall x | x in ys ensures exists y :: y in xs && TypeRank(y) == TypeRank(x) && SlowIn(y, x) {
        var i :| 0 <= i < |ys| && ys[i] == x;
        AlikeIn(xs[i], ys[i]);
        assert xs[i] in xs && TypeRank(xs[i]) == TypeRank(ys[i]);
      }
    case (JObj(ps), JObj(qs)) =>
      forall q: Pair | q in qs ensures exists p: Pair :: p in ps && p.k == q.k && SlowIn(p.v, q.v) {
        var i :| 0 <= i < |qs| && qs[i] == q;
        AlikeIn(ps[i].v, qs[i].v);
        assert ps[i] in ps;
      }
    case _ =>
  }
}
