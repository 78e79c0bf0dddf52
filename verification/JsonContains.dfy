/** The @> containment test (pkg/util/json/contains.go) against its naive definition
    (pkg/util/json/contains_testers.go). */
module JsonContains {
  import opened ByteStrings
  import opened Json
  import KeyDecimal
  import opened JsonLazy
  import opened Wrappers

  // ------------------------------------------------- scalars and their order

  predicate IsScalar(j: Json) {
    !j.JArr? && !j.JObj?
  }

  /** The declaration order of the JSON types. */
  function TypeRank(j: Json): int {
    match j
    case JNull => 1
    case JStr(_) => 2
    case JNum(_) => 3
    case JFalse => 4
    case JTrue => 5
    case JArr(_) => 6
    case JObj(_) => 7
  }

  /** Numbers of JSON documents are finite at every depth. */
  predicate Numeric(j: Json) {
    match j
    case JNum(d) => d.Finite?
    case JArr(items) => forall x :: x in items ==> Numeric(x)
    case JObj(pairs) => forall p: Pair :: p in pairs ==> Numeric(p.v)
    case _ => true
  }

  /** Compare, as far as containment uses it: at least one side is a scalar, numbers are finite. */
  function Cmp(a: Json, b: Json): int {
    if TypeRank(a) < TypeRank(b) then -1
    else if TypeRank(a) > TypeRank(b) then 1
    else
      match (a, b)
      case (JNum(d), JNum(e)) =>
        if !d.Finite? || !e.Finite? then 0
        else if KeyDecimal.Value(d) < KeyDecimal.Value(e) then -1 else if KeyDecimal.Value(d) > KeyDecimal.Value(e) then 1 else 0
      case (JStr(s), JStr(t)) => CompareBytes(s, t)
      case _ => 0
  }

  predicate ScalarDoc(j: Json) {
    IsScalar(j) && Numeric(j)
  }

  lemma CmpFlip(a: Json, b: Json)
    requires ScalarDoc(a) && ScalarDoc(b)
    ensures Cmp(b, a) == -Cmp(a, b)
  {
    if a.JStr? && b.JStr? { CompareFlip(a.s, b.s); }
  }

  lemma CmpTrans(a: Json, b: Json, c: Json)
    requires ScalarDoc(a) && ScalarDoc(b) && ScalarDoc(c) && Cmp(a, b) <= 0 && Cmp(b, c) <= 0
    ensures Cmp(a, c) <= 0 && (Cmp(a, c) == 0 ==> Cmp(a, b) == 0 && Cmp(b, c) == 0)
  {
    if a.JStr? && b.JStr? && c.JStr? {
      if a.s != b.s && b.s != c.s { CompareChain2(a.s, b.s, c.s); }
    }
  }

  /** Some member compares equal to v. */
  ghost predicate Has(s: seq<Json>, v: Json) {
    exists x :: x in s && Cmp(x, v) == 0
  }

  // ------------------------------------------------- the naive definition

  ghost predicate SlowIn(a: Json, b: Json) {
    match a
    case JArr(items) => b.JArr? && forall x :: x in b.items ==> exists y :: y in items && TypeRank(y) == TypeRank(x) && SlowIn(y, x)
    case JObj(pairs) =>
      b.JObj? && forall q: Pair :: q in b.pairs ==>
        exists p: Pair :: p in pairs && p.k == q.k && SlowIn(p.v, q.v)
    case _ => IsScalar(b) && Cmp(a, b) == 0
  }

  /** slowContains: an array also contains a scalar that is one of its elements. */
  ghost predicate SlowContains(a: Json, b: Json) {
    if a.JArr? && IsScalar(b) then Has(a.items, b) else SlowIn(a, b)
  }

  /** In an object with sorted keys, scanning for a key and fetching it by key agree. */
  lemma {:induction false} FetchIsMember(pairs: seq<Pair>, key: bytes, v: Json)
    requires SortedPairs(pairs)
    ensures FindKey(pairs, key) == Some(v) <==> Pair(key, v) in pairs
  {
    if pairs != [] {
      assert forall k :: 0 <= k < |pairs| - 1 ==> pairs[1..][k] == pairs[k + 1];
      FetchIsMember(pairs[1..], key, v);
      SelfCompare(key);
      assert pairs[0].k == key ==> forall k :: 0 < k < |pairs| ==> pairs[k].k != key;
    }
  }

  lemma SelfCompare(a: bytes)
    ensures CompareBytes(a, a) == 0
  {
  }

  // ------------------------------------------------- preprocessed documents

  datatype Pre =
    | PScalar(j: Json)
    | PArray(scalars: seq<Json>, arrays: seq<Pre>, objects: seq<Pre>)
    | PObject(pairs: seq<PrePair>)

  datatype PrePair = PrePair(k: bytes, v: Pre)

  predicate SortedScalars(s: seq<Json>) {
    (forall i :: 0 <= i < |s| ==> ScalarDoc(s[i])) && forall i, j :: 0 <= i < j < |s| ==> Cmp(s[i], s[j]) <= 0
  }

  predicate SortedPre(ps: seq<PrePair>) {
    forall i, j :: 0 <= i < j < |ps| ==> CompareBytes(ps[i].k, ps[j].k) < 0
  }

  function Having(items: seq<Json>, rank: int): (r: seq<Json>)
    ensures forall x :: x in r <==> x in items && TypeRank(x) == rank
  {
    if items == [] then [] else (if TypeRank(items[0]) == rank then [items[0]] else []) + Having(items[1..], rank)
  }

  /** p is a preprocessing of j: sort.Slice may leave equal scalars in any order. */
  ghost predicate IsPre(p: Pre, j: Json) {
    match p
    case PScalar(s) => s == j && ScalarDoc(j)
    case PArray(scalars, arrays, objects) =>
      && j.JArr? && SortedScalars(scalars) && (forall x :: x in scalars <==> x in j.items && IsScalar(x))
      && |arrays| == |Having(j.items, 6)| && (forall i :: 0 <= i < |arrays| ==> IsPre(arrays[i], Having(j.items, 6)[i]))
      && |objects| == |Having(j.items, 7)| && (forall i :: 0 <= i < |objects| ==> IsPre(objects[i], Having(j.items, 7)[i]))
    case PObject(pairs) =>
      && j.JObj? && SortedPairs(j.pairs) && |pairs| == |j.pairs|
      && forall i :: 0 <= i < |pairs| ==> pairs[i].k == j.pairs[i].k && IsPre(pairs[i].v, j.pairs[i].v)
  }

  // ------------------------------------------------- the fast test

  /** The first position whose scalar is not below v. */
  function LowerBound(s: seq<Json>, v: Json): (i: nat)
    ensures i <= |s| && (i < |s| ==> Cmp(s[i], v) >= 0) && forall k :: 0 <= k < i ==> Cmp(s[k], v) < 0
  {
    if s == [] || Cmp(s[0], v) >= 0 then 0 else 1 + LowerBound(s[1..], v)
  }

  /** The scalar loop: each value is looked for only in what the previous searches left. */
  predicate ScalarsIn(remaining: seq<Json>, vals: seq<Json>)
    decreases |vals|
  {
    vals == [] ||
    (var found := LowerBound(remaining, vals[0]);
     found < |remaining| && Cmp(remaining[found], vals[0]) == 0 && ScalarsIn(remaining[found..], vals[1..]))
  }

  /** Documents whose scalars are sorted everywhere. */
  predicate Ready(p: Pre) {
    match p
    case PScalar(j) => ScalarDoc(j)
    case PArray(scalars, arrays, objects) =>
      SortedScalars(scalars) && (forall x :: x in arrays ==> Ready(x)) && (forall x :: x in objects ==> Ready(x))
    case PObject(pairs) => forall x: PrePair :: x in pairs ==> Ready(x.v)
  }

  predicate FastIn(p: Pre, q: Pre)
    decreases p, 0, 0
  {
    match (p, q)
    case (PScalar(a), PScalar(b)) => Cmp(a, b) == 0
    case (PArray(s, xs, os), PArray(t, ys, ps)) =>
      && ScalarsIn(s, t)
      && (forall x :: x in ps ==> exists y :: y in os && FastIn(y, x))
      && (forall x :: x in ys ==> exists y :: y in xs && FastIn(y, x))
    case (PObject(ps), PObject(qs)) => MergeIn(ps, qs)
    case _ => false
  }

  /** The object loop: both key lists are scanned forwards once. */
  predicate MergeIn(ps: seq<PrePair>, qs: seq<PrePair>)
    decreases ps, 1, |qs|
  {
    qs == [] ||
    (ps != [] &&
     if CompareBytes(ps[0].k, qs[0].k) < 0 then MergeIn(ps[1..], qs)
     else ps[0].k == qs[0].k && FastIn(ps[0].v, qs[0].v) && MergeIn(ps[1..], qs[1..]))
  }

  // ------------------------------------------------- the loops compute it

  /** sort.Search over the remaining scalars. */
  method SearchScalar(s: seq<Json>, v: Json) returns (i: nat)
    requires SortedScalars(s) && ScalarDoc(v)
    ensures i == LowerBound(s, v)
  {
    hide Cmp, Numeric, IsScalar, LowerBound;
    i := 0;
    var j := |s|;
    while i < j
      invariant i <= j <= |s|
      invariant forall k :: 0 <= k < i ==> Cmp(s[k], v) < 0
      invariant j < |s| ==> Cmp(s[j], v) >= 0
    {
      var h := (i + j) / 2;
      if Cmp(s[h], v) >= 0 {
        j := h;
      } else {
        forall k | 0 <= k < h ensures Cmp(s[k], v) < 0 { CmpTrans(s[k], s[h], v); }
        i := h + 1;
      }
    }
    assert LowerBound(s, v) <= i;
  }

  method ContainsScalars(scalars: seq<Json>, vals: seq<Json>) returns (r: bool)
    requires SortedScalars(scalars) && SortedScalars(vals)
    ensures r == ScalarsIn(scalars, vals)
  {
    hide Cmp;
    var remaining := scalars;
    for i := 0 to |vals|
      invariant SortedScalars(remaining) && SortedScalars(vals[i..])
      invariant ScalarsIn(scalars, vals) == ScalarsIn(remaining, vals[i..])
    {
      assert vals[i..][1..] == vals[i + 1..];
      var found := SearchScalar(remaining, vals[i]);
      if found == |remaining| {
        return false;
      }
      if Cmp(remaining[found], vals[i]) != 0 {
        return false;
      }
      remaining := remaining[found..];
    }
    return true;
  }

  /** containsableArray.contains, containsableObject.contains, containsableScalar.contains. */
  method Contains(p: Pre, q: Pre) returns (r: bool)
    requires Ready(p) && Ready(q)
    ensures r == FastIn(p, q)
    decreases p, 1
  {
    hide Cmp, ScalarsIn;
    match (p, q) {
      case (PScalar(a), PScalar(b)) => return Cmp(a, b) == 0;
      case (PArray(s, xs, os), PArray(t, ys, ps)) =>
        r := ContainsScalars(s, t);
        if !r { return; }
        r := Quadratic(os, ps);
        if !r { return; }
        r := Quadratic(xs, ys);
      case (PObject(ps), PObject(qs)) =>
        r := ContainsObject(ps, qs);
      case _ => return false;
    }
  }

  /** quadraticJSONArrayContains. */
  method Quadratic(container: seq<Pre>, other: seq<Pre>) returns (r: bool)
    requires (forall x :: x in container ==> Ready(x)) && (forall x :: x in other ==> Ready(x))
    ensures r == forall x :: x in other ==> exists y :: y in container && FastIn(y, x)
    decreases container, 2
  {
    hide FastIn, Ready;
    for i := 0 to |other|
      invariant forall x :: x in other[..i] ==> exists y :: y in container && FastIn(y, x)
    {
      var found := false;
      for k := 0 to |container|
        invariant !found && forall y :: y in container[..k] ==> !FastIn(y, other[i])
      {
        var c := Contains(container[k], other[i]);
        if c {
          found := true;
          assert container[k] in container && FastIn(container[k], other[i]);
          break;
        }
      }
      if !found {
        assert container[..|container|] == container && other[i] in other;
        return false;
      }
      assert other[..i + 1] == other[..i] + [other[i]];
    }
    assert other[..|other|] == other;
    return true;
  }

  method ContainsObject(ps: seq<PrePair>, qs: seq<PrePair>) returns (r: bool)
    requires (forall x: PrePair :: x in ps ==> Ready(x.v)) && (forall x: PrePair :: x in qs ==> Ready(x.v))
    ensures r == MergeIn(ps, qs)
    decreases ps, 2
  {
    hide FastIn, Ready, CompareBytes;
    var objIdx := 0;
    for i := 0 to |qs|
      invariant objIdx <= |ps| && MergeIn(ps, qs) == MergeIn(ps[objIdx..], qs[i..])
    {
      assert qs[i..][1..] == qs[i + 1..];
      while objIdx < |ps| && CompareBytes(ps[objIdx].k, qs[i].k) < 0
        invariant objIdx <= |ps| && MergeIn(ps, qs) == MergeIn(ps[objIdx..], qs[i..])
      {
        assert ps[objIdx..][1..] == ps[objIdx + 1..];
        objIdx := objIdx + 1;
      }
      if objIdx >= |ps| || ps[objIdx].k != qs[i].k {
        return false;
      }
      assert ps[objIdx..][1..] == ps[objIdx + 1..];
      var c := Contains(ps[objIdx].v, qs[i].v);
      if !c {
        return false;
      }
      objIdx := objIdx + 1;
    }
    return true;
  }

  // ------------------------------------------------- fast equals slow

  /** The search for the first value: found exactly when some scalar equals it. */
  lemma FoundMeans(s: seq<Json>, v: Json)
    requires SortedScalars(s) && ScalarDoc(v)
    ensures var i := LowerBound(s, v); i < |s| && Cmp(s[i], v) == 0 <==> Has(s, v)
  {
    hide Cmp, Numeric, IsScalar, LowerBound;
    var found := LowerBound(s, v);
    if Has(s, v) {
      var x :| x in s && Cmp(x, v) == 0;
      var k :| 0 <= k < |s| && s[k] == x;
      if found < k {
        CmpFlip(s[found], v);
        CmpTrans(v, s[found], x);
        CmpFlip(x, v);
      }
    }
  }

  /** Dropping what lies below one value loses nothing for the larger ones. */
  lemma DropMeans(s: seq<Json>, v: Json, w: Json)
    requires SortedScalars(s) && ScalarDoc(v) && ScalarDoc(w) && Cmp(v, w) <= 0
    ensures Has(s, w) <==> Has(s[LowerBound(s, v)..], w)
  {
    hide Cmp, Numeric, IsScalar, LowerBound;
    var found := LowerBound(s, v);
    if Has(s[found..], w) {
      var x :| x in s[found..] && Cmp(x, w) == 0;
      var k :| 0 <= k < |s[found..]| && s[found..][k] == x;
      assert s[found + k] in s;
    }
    if Has(s, w) {
      var x :| x in s && Cmp(x, w) == 0;
      var k :| 0 <= k < |s| && s[k] == x;
      if k < found { CmpTrans(s[k], v, w); }
      KeptByDrop(s, found, k);
    }
  }

  lemma KeptByDrop<T>(s: seq<T>, i: nat, k: nat)
    requires i <= k < |s|
    ensures s[k] in s[i..]
  {
    assert s[i..][k - i] == s[k];
  }

  lemma {:induction false} ScalarsInMeans(s: seq<Json>, vals: seq<Json>)
    requires SortedScalars(s) && SortedScalars(vals)
    ensures ScalarsIn(s, vals) <==> forall v :: v in vals ==> Has(s, v)
    decreases |vals|
  {
    hide Cmp, Has;
    if vals != [] {
      var v0 := vals[0];
      var found := LowerBound(s, v0);
      FoundMeans(s, v0);
      assert forall v :: v in vals <==> v == v0 || v in vals[1..];
      if found < |s| && Cmp(s[found], v0) == 0 {
        ScalarsInMeans(s[found..], vals[1..]);
        forall v | v in vals[1..] ensures Has(s, v) <==> Has(s[found..], v) {
          var m :| 0 < m < |vals| && vals[m] == v;
          DropMeans(s, v0, v);
        }
      }
    }
  }

  /** With both key lists sorted, the one-pass scan finds exactly the shared keys. */
  lemma {:induction false} MergeInMeans(ps: seq<PrePair>, qs: seq<PrePair>)
    requires SortedPre(ps) && SortedPre(qs)
    ensures MergeIn(ps, qs) <==> forall q: PrePair :: q in qs ==> exists p: PrePair :: p in ps && p.k == q.k && FastIn(p.v, q.v)
    decreases |ps|
  {
    hide FastIn, CompareBytes;
    if qs != [] && ps != [] {
      var p0, q0 := ps[0], qs[0];
      TailSorted(ps);
      TailSorted(qs);
      assert forall p :: p in ps <==> p == p0 || p in ps[1..];
      assert forall q :: q in qs <==> q == q0 || q in qs[1..];
      if CompareBytes(p0.k, q0.k) < 0 {
        MergeInMeans(ps[1..], qs);
        forall q | q in qs ensures p0.k != q.k {
          var i :| 0 <= i < |qs| && qs[i] == q;
          if i > 0 { CompareChain2(p0.k, q0.k, q.k); }
          SelfCompare(p0.k);
        }
      } else if p0.k == q0.k {
        MergeInMeans(ps[1..], qs[1..]);
        forall q | q in qs[1..] ensures q.k != p0.k {
          var i :| 0 < i < |qs| && qs[i] == q;
          SelfCompare(p0.k);
        }
        forall p | p in ps[1..] ensures p.k != q0.k {
          var i :| 0 < i < |ps| && ps[i] == p;
          SelfCompare(q0.k);
        }
      } else {
        forall p | p in ps ensures p.k != q0.k {
          var i :| 0 <= i < |ps| && ps[i] == p;
          if i > 0 { CompareChain(q0.k, p0.k, p.k); NotSame(q0.k, p0.k, p.k); }
        }
      }
    } else if qs != [] {
      assert qs[0] in qs;
    }
  }

  lemma NotSame(key: bytes, a: bytes, b: bytes)
    requires CompareBytes(a, key) >= 0 && CompareBytes(a, b) < 0
    ensures b != key
  {
  }

  lemma TailSorted(ps: seq<PrePair>)
    requires SortedPre(ps) && ps != []
    ensures SortedPre(ps[1..]) && forall i :: 0 < i < |ps| ==> CompareBytes(ps[0].k, ps[i].k) < 0
  {
    hide CompareBytes;
    assert forall k :: 0 <= k < |ps| - 1 ==> ps[1..][k] == ps[k + 1];
  }

  lemma {:induction false} PreReady(p: Pre, j: Json)
    requires IsPre(p, j)
    ensures Ready(p)
    decreases p
  {
    hide Cmp;
    match p
    case PScalar(_) =>
    case PArray(scalars, arrays, objects) =>
      forall i | 0 <= i < |arrays| ensures Ready(arrays[i]) { PreReady(arrays[i], Having(j.items, 6)[i]); }
      forall i | 0 <= i < |objects| ensures Ready(objects[i]) { PreReady(objects[i], Having(j.items, 7)[i]); }
    case PObject(pairs) =>
      forall i | 0 <= i < |pairs| ensures Ready(pairs[i].v) { PreReady(pairs[i].v, j.pairs[i].v); }
  }

  /** One list of preprocessed members against another: the members themselves. */
  ghost predicate Covers(ys: seq<Json>, xs: seq<Json>) {
    forall x :: x in xs ==> exists y :: y in ys && SlowIn(y, x)
  }

  lemma CoversMeans(ps: seq<Pre>, ys: seq<Json>, qs: seq<Pre>, xs: seq<Json>)
    requires |ps| == |ys| && |qs| == |xs|
    requires forall i, k :: 0 <= i < |ps| && 0 <= k < |qs| ==> (FastIn(ps[i], qs[k]) <==> SlowIn(ys[i], xs[k]))
    ensures (forall x :: x in qs ==> exists y :: y in ps && FastIn(y, x)) <==> Covers(ys, xs)
  {
    hide FastIn, SlowIn;
    if Covers(ys, xs) {
      forall x | x in qs ensures exists y :: y in ps && FastIn(y, x) {
        var k :| 0 <= k < |qs| && qs[k] == x;
        assert xs[k] in xs;
        var y :| y in ys && SlowIn(y, xs[k]);
        var i :| 0 <= i < |ys| && ys[i] == y;
        assert FastIn(ps[i], qs[k]) && ps[i] in ps;
      }
    }
    if forall x :: x in qs ==> exists y :: y in ps && FastIn(y, x) {
      forall x | x in xs ensures exists y :: y in ys && SlowIn(y, x) {
        var k :| 0 <= k < |xs| && xs[k] == x;
        assert qs[k] in qs;
        var y :| y in ps && FastIn(y, qs[k]);
        var i :| 0 <= i < |ps| && ps[i] == y;
        assert SlowIn(ys[i], xs[k]) && ys[i] in ys;
      }
    }
  }

  /** An array's members, split by type: scalars, arrays, objects. */
  lemma SlowArraySplit(items: seq<Json>, others: seq<Json>)
    ensures SlowIn(JArr(items), JArr(others)) <==>
              && (forall x :: x in others && IsScalar(x) ==> Has(items, x))
              && Covers(Having(items, 6), Having(others, 6)) && Covers(Having(items, 7), Having(others, 7))
  {
    hide Cmp, SlowIn, Having;
    SlowArrayIs(items, others);
    forall x, y | x in others && IsScalar(x) && y in items
      ensures (TypeRank(y) == TypeRank(x) && SlowIn(y, x)) <==> Cmp(y, x) == 0
    {
      RankSame(y, x);
    }
  }

  lemma SlowArrayIs(items: seq<Json>, others: seq<Json>)
    ensures SlowIn(JArr(items), JArr(others)) <==>
            forall x :: x in others ==> exists y :: y in items && TypeRank(y) == TypeRank(x) && SlowIn(y, x)
  {
  }

  lemma RankSame(y: Json, x: Json)
    requires IsScalar(x)
    ensures Cmp(y, x) == 0 ==> IsScalar(y) && TypeRank(y) == TypeRank(x)
    ensures TypeRank(y) == TypeRank(x) ==> IsScalar(y) && (SlowIn(y, x) <==> Cmp(y, x) == 0)
  {
  }

  /** The fast test agrees with the naive one on every pair of documents, however their
      scalars were sorted. */
  lemma {:induction false} FastIsSlow(p: Pre, a: Json, q: Pre, b: Json)
    requires IsPre(p, a) && IsPre(q, b)
    ensures FastIn(p, q) <==> SlowIn(a, b)
    decreases p
  {
    match (p, q)
    case (PScalar(_), _) =>
    case (PArray(s, xs, os), PArray(t, ys, ps)) =>
      ArraysAgree(p, a, q, b);
    case (PObject(ps), PObject(qs)) =>
      ObjectsAgree(p, a, q, b);
    case _ =>
  }

  lemma {:induction false} ArraysAgree(p: Pre, a: Json, q: Pre, b: Json)
    requires p.PArray? && q.PArray? && IsPre(p, a) && IsPre(q, b)
    ensures FastIn(p, q) <==> SlowIn(a, b)
    decreases p, 0
  {
    var ya, yo, xa, xo := Having(a.items, 6), Having(a.items, 7), Having(b.items, 6), Having(b.items, 7);
    forall i, k | 0 <= i < |p.arrays| && 0 <= k < |q.arrays|
      ensures FastIn(p.arrays[i], q.arrays[k]) <==> SlowIn(ya[i], xa[k])
    {
      FastIsSlow(p.arrays[i], ya[i], q.arrays[k], xa[k]);
    }
    forall i, k | 0 <= i < |p.objects| && 0 <= k < |q.objects|
      ensures FastIn(p.objects[i], q.objects[k]) <==> SlowIn(yo[i], xo[k])
    {
      FastIsSlow(p.objects[i], yo[i], q.objects[k], xo[k]);
    }
    hide SlowIn, Having, Cmp, IsPre, Has, Covers;
    CoversMeans(p.arrays, ya, q.arrays, xa);
    CoversMeans(p.objects, yo, q.objects, xo);
    ScalarsInMeans(p.scalars, q.scalars);
    SlowArraySplit(a.items, b.items);
    PreScalars(p, a);
    PreScalars(q, b);
  }

  lemma PreScalars(p: Pre, a: Json)
    requires p.PArray? && IsPre(p, a)
    ensures a.JArr? && SortedScalars(p.scalars) && forall x :: x in p.scalars <==> x in a.items && IsScalar(x)
    ensures forall v :: IsScalar(v) ==> (Has(p.scalars, v) <==> Has(a.items, v))
  {
    forall v | IsScalar(v) && Has(a.items, v) ensures Has(p.scalars, v) {
      var x :| x in a.items && Cmp(x, v) == 0;
      RankSame(x, v);
    }
  }

  lemma {:induction false} ObjectsAgree(p: Pre, a: Json, q: Pre, b: Json)
    requires p.PObject? && q.PObject? && IsPre(p, a) && IsPre(q, b)
    ensures FastIn(p, q) <==> SlowIn(a, b)
    decreases p, 0
  {
    var ps, qs := p.pairs, q.pairs;
    forall i, k | 0 <= i < |ps| && 0 <= k < |qs|
      ensures FastIn(ps[i].v, qs[k].v) <==> SlowIn(a.pairs[i].v, b.pairs[k].v)
    {
      FastIsSlow(ps[i].v, a.pairs[i].v, qs[k].v, b.pairs[k].v);
    }
    MergeInMeans(ps, qs);
    PairsCorrespond(ps, a.pairs, qs, b.pairs);
    SlowObjectIs(a.pairs, b.pairs);
  }

  lemma SlowObjectIs(ps: seq<Pair>, qs: seq<Pair>)
    ensures SlowIn(JObj(ps), JObj(qs)) <==>
            forall q: Pair :: q in qs ==> exists p: Pair :: p in ps && p.k == q.k && SlowIn(p.v, q.v)
  {
  }

  lemma PairsCorrespond(ps: seq<PrePair>, js: seq<Pair>, qs: seq<PrePair>, ks: seq<Pair>)
    requires |ps| == |js| && |qs| == |ks|
    requires (forall i :: 0 <= i < |ps| ==> ps[i].k == js[i].k) && (forall i :: 0 <= i < |qs| ==> qs[i].k == ks[i].k)
    requires forall i, k :: 0 <= i < |ps| && 0 <= k < |qs| ==> (FastIn(ps[i].v, qs[k].v) <==> SlowIn(js[i].v, ks[k].v))
    ensures (forall q: PrePair :: q in qs ==> exists p: PrePair :: p in ps && p.k == q.k && FastIn(p.v, q.v)) <==>
            (forall q: Pair :: q in ks ==> exists p: Pair :: p in js && p.k == q.k && SlowIn(p.v, q.v))
  {
    hide FastIn, SlowIn;
    if forall q: Pair :: q in ks ==> exists p: Pair :: p in js && p.k == q.k && SlowIn(p.v, q.v) {
      forall q | q in qs ensures exists p: PrePair :: p in ps && p.k == q.k && FastIn(p.v, q.v) {
        var k :| 0 <= k < |qs| && qs[k] == q;
        assert ks[k] in ks;
        var y :| y in js && y.k == ks[k].k && SlowIn(y.v, ks[k].v);
        var i :| 0 <= i < |js| && js[i] == y;
        assert ps[i] in ps && FastIn(ps[i].v, q.v);
      }
    }
    if forall q: PrePair :: q in qs ==> exists p: PrePair :: p in ps && p.k == q.k && FastIn(p.v, q.v) {
      forall q | q in ks ensures exists p: Pair :: p in js && p.k == q.k && SlowIn(p.v, q.v) {
        var k :| 0 <= k < |ks| && ks[k] == q;
        assert qs[k] in qs;
        var y :| y in ps && y.k == qs[k].k && FastIn(y.v, qs[k].v);
        var i :| 0 <= i < |ps| && ps[i] == y;
        assert js[i] in js && SlowIn(js[i].v, q.v);
      }
    }
  }

  // ------------------------------------------------- preprocessing and the whole test

  /** Insert into a sorted list, the role of sort.Slice. */
  method InsertScalar(s: seq<Json>, x: Json) returns (r: seq<Json>)
    requires SortedScalars(s) && ScalarDoc(x)
    ensures SortedScalars(r) && forall y :: y in r <==> y in s || y == x
  {
    hide Cmp, SortedScalars, ScalarDoc;
    var i := SearchScalar(s, x);
    r := s[..i] + [x] + s[i..];
    assert s == s[..i] + s[i..];
    InsertSorted(s, x, i);
  }

  lemma InsertSorted(s: seq<Json>, x: Json, i: nat)
    requires SortedScalars(s) && ScalarDoc(x) && i == LowerBound(s, x)
    ensures SortedScalars(s[..i] + [x] + s[i..])
  {
    hide Cmp, Numeric, IsScalar, LowerBound;
    var r := s[..i] + [x] + s[i..];
    assert |r| == |s| + 1 && r[i] == x;
    forall a | 0 <= a < |r| ensures r[a] == if a < i then s[a] else if a == i then x else s[a - 1] {
    }
    forall a, b | 0 <= a < b < |r| ensures Cmp(r[a], r[b]) <= 0 {
      if a == i {
        CmpFlip(s[i], x);
        if b - 1 > i { CmpTrans(x, s[i], s[b - 1]); }
      }
    }
  }

  /** preprocessForContains. */
  method Preprocess(j: Json) returns (p: Pre)
    requires Numeric(j) && Sorted(j)
    ensures IsPre(p, j)
    decreases j, 1
  {
    match j {
      case JArr(items) =>
        p := PreprocessArray(items);
      case JObj(pairs) =>
        var pre: seq<PrePair> := [];
        for i := 0 to |pairs|
          invariant |pre| == i && forall k :: 0 <= k < i ==> pre[k].k == pairs[k].k && IsPre(pre[k].v, pairs[k].v)
        {
          var v := Preprocess(pairs[i].v);
          pre := pre + [PrePair(pairs[i].k, v)];
        }
        return PObject(pre);
      case _ =>
        return PScalar(j);
    }
  }

  ghost predicate ArePre(ps: seq<Pre>, js: seq<Json>) {
    |ps| == |js| && forall i :: 0 <= i < |ps| ==> IsPre(ps[i], js[i])
  }

  /** Scalars go to a sorted list; arrays and objects keep their order. */
  method PreprocessArray(items: seq<Json>) returns (p: Pre)
    requires forall x :: x in items ==> Numeric(x) && Sorted(x)
    ensures IsPre(p, JArr(items))
    decreases items, 0
  {
    hide Cmp, IsPre, Having, Numeric, Sorted, SortedScalars;
    var scalars: seq<Json>, arrays: seq<Pre>, objects: seq<Pre> := [], [], [];
    NothingPre();
    for i := 0 to |items|
      invariant SortedScalars(scalars) && forall x :: x in scalars <==> x in items[..i] && IsScalar(x)
      invariant ArePre(arrays, Having(items[..i], 6)) && ArePre(objects, Having(items[..i], 7))
    {
      var e := items[i];
      HavingAppend(items[..i], e, 6);
      HavingAppend(items[..i], e, 7);
      assert items[..i + 1] == items[..i] + [e];
      if e.JArr? {
        var pre := Preprocess(e);
        arrays := arrays + [pre];
      } else if e.JObj? {
        var pre := Preprocess(e);
        objects := objects + [pre];
      } else {
        scalars := InsertScalar(scalars, e);
      }
    }
    assert items[..|items|] == items;
    p := PArray(scalars, arrays, objects);
    ArrayIsPre(p, items);
  }

  lemma NothingPre()
    ensures Having([], 6) == [] && Having([], 7) == [] && SortedScalars([])
  {
  }

  lemma ArrayIsPre(p: Pre, items: seq<Json>)
    requires p.PArray? && SortedScalars(p.scalars) && (forall x :: x in p.scalars <==> x in items && IsScalar(x))
    requires ArePre(p.arrays, Having(items, 6)) && ArePre(p.objects, Having(items, 7))
    ensures IsPre(p, JArr(items))
  {
  }

  lemma {:induction false} HavingAppend(items: seq<Json>, e: Json, rank: int)
    ensures Having(items + [e], rank) == Having(items, rank) + if TypeRank(e) == rank then [e] else []
  {
    hide TypeRank, Having;
    HavingUnfold(items + [e], rank);
    if items == [] {
      HavingNothing(rank);
      assert items + [e] == [e] && [e][1..] == [];
    } else {
      HavingUnfold(items, rank);
      HavingAppend(items[1..], e, rank);
      assert (items + [e])[1..] == items[1..] + [e];
    }
  }

  lemma HavingNothing(rank: int)
    ensures Having([], rank) == []
  {
  }

  lemma HavingUnfold(items: seq<Json>, rank: int)
    requires items != []
    ensures Having(items, rank) == (if TypeRank(items[0]) == rank then [items[0]] else []) + Having(items[1..], rank)
  {
  }

  /** Contains: preprocess both sides, unless an array is asked for a scalar. */
  method ContainsJson(a: Json, b: Json) returns (r: bool)
    requires Numeric(a) && Numeric(b) && Sorted(a) && Sorted(b)
    ensures r == SlowContains(a, b)
  {
    hide Cmp, IsPre;
    if a.JArr? && IsScalar(b) {
      for i := 0 to |a.items|
        invariant forall x :: x in a.items[..i] ==> Cmp(x, b) != 0
      {
        if Cmp(a.items[i], b) == 0 {
          return true;
        }
      }
      assert a.items[..|a.items|] == a.items;
      return false;
    }
    var preA := Preprocess(a);
    var preB := Preprocess(b);
    PreReady(preA, a);
    PreReady(preB, b);
    FastIsSlow(preA, a, preB, b);
    r := Contains(preA, preB);
  }

  // ------------------------------------------------- containment is a preorder

  lemma {:induction false} SlowReflexive(a: Json)
    requires Numeric(a)
    ensures SlowIn(a, a)
    decreases a
  {
    match a
    case JArr(items) =>
      forall x | x in items ensures SlowIn(x, x) { SlowReflexive(x); }
    case JObj(pairs) =>
      forall p: Pair | p in pairs ensures SlowIn(p.v, p.v) { SlowReflexive(p.v); }
    case JStr(s) => SelfCompare(s);
    case _ =>
  }

  lemma {:induction false} SlowTransitive(a: Json, b: Json, c: Json)
    requires Numeric(a) && Numeric(b) && Numeric(c) && SlowIn(a, b) && SlowIn(b, c)
    ensures SlowIn(a, c)
    decreases a
  {
    match a
    case JArr(items) =>
      forall x | x in c.items ensures exists y :: y in items && TypeRank(y) == TypeRank(x) && SlowIn(y, x) {
        var y :| y in b.items && TypeRank(y) == TypeRank(x) && SlowIn(y, x);
        var z :| z in items && TypeRank(z) == TypeRank(y) && SlowIn(z, y);
        SlowTransitive(z, y, x);
      }
    case JObj(pairs) =>
      forall q: Pair | q in c.pairs ensures exists p: Pair :: p in pairs && p.k == q.k && SlowIn(p.v, q.v) {
        var y: Pair :| y in b.pairs && y.k == q.k && SlowIn(y.v, q.v);
        var z: Pair :| z in pairs && z.k == y.k && SlowIn(z.v, y.v);
        SlowTransitive(z.v, y.v, q.v);
      }
    case _ => CmpTrans(a, b, c); CmpFlip(a, b); CmpFlip(b, c); CmpTrans(c, b, a); CmpFlip(a, c);
  }

  /** Containment as users see it is reflexive and transitive. */
  lemma ContainsPreorder(a: Json, b: Json, c: Json)
    requires Numeric(a) && Numeric(b) && Numeric(c)
    ensures SlowContains(a, a)
    ensures SlowContains(a, b) && SlowContains(b, c) ==> SlowContains(a, c)
  {
    hide Cmp, SlowIn;
    SlowReflexive(a);
    if SlowContains(a, b) && SlowContains(b, c) {
      if a.JArr? && IsScalar(b) {
        ScalarOnly(b, c);
        var x :| x in a.items && Cmp(x, b) == 0;
        ScalarChain(x, b, c);
      } else if a.JArr? && IsScalar(c) {
        ArrayOnly(a, b);
        var y :| y in b.items && Cmp(y, c) == 0;
        RankSame(y, c);
        ElementOf(a.items, b.items, y);
        var x :| x in a.items && Cmp(x, y) == 0;
        ScalarChain(x, y, c);
      } else {
        SameShape(a, b);
        SlowTransitive(a, b, c);
      }
    }
  }

  lemma ScalarOnly(b: Json, c: Json)
    requires IsScalar(b) && SlowIn(b, c)
    ensures IsScalar(c) && Cmp(b, c) == 0
  {
  }

  lemma ArrayOnly(a: Json, b: Json)
    requires a.JArr? && SlowIn(a, b)
    ensures b.JArr?
  {
  }

  lemma SameShape(a: Json, b: Json)
    requires SlowIn(a, b)
    ensures a.JArr? <==> b.JArr?
  {
  }

  lemma ElementOf(items: seq<Json>, others: seq<Json>, y: Json)
    requires SlowIn(JArr(items), JArr(others)) && y in others && ScalarDoc(y)
    ensures exists x :: x in items && Cmp(x, y) == 0
  {
    SlowArraySplit(items, others);
  }

  lemma ScalarChain(x: Json, y: Json, c: Json)
    requires Numeric(x) && ScalarDoc(y) && ScalarDoc(c) && Cmp(x, y) == 0 && Cmp(y, c) == 0
    ensures Cmp(x, c) == 0
  {
    CmpTrans(x, y, c);
    CmpFlip(x, y);
    CmpFlip(y, c);
    CmpTrans(c, y, x);
    CmpFlip(x, c);
  }
}
