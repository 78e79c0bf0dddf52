/** JSON objects as finite maps: building, setting and removing keys, merging, stripping nulls
    (pkg/util/json/json.go). */
module JsonObjects {
  import opened ByteStrings
  import opened Wrappers
  import opened Json
  import opened JsonLazy
  import opened ComparisonSorts
  import JsonReader

  /** The last value given to a key. */
  function Last(pairs: seq<Pair>, key: bytes): Option<Json> {
    if pairs == [] then None
    else if pairs[|pairs| - 1].k == key then Some(pairs[|pairs| - 1].v)
    else Last(pairs[..|pairs| - 1], key)
  }

  lemma {:induction false} LastIs(pairs: seq<Pair>, key: bytes, i: nat)
    requires i < |pairs| && pairs[i].k == key && forall j :: i < j < |pairs| ==> pairs[j].k != key
    ensures Last(pairs, key) == Some(pairs[i].v)
  {
    if i < |pairs| - 1 { LastIs(pairs[..|pairs| - 1], key, i); }
  }

  lemma {:induction false} LastNone(pairs: seq<Pair>, key: bytes)
    ensures Last(pairs, key) == None <==> forall i :: 0 <= i < |pairs| ==> pairs[i].k != key
  {
    if pairs != [] && pairs[|pairs| - 1].k != key {
      var front := pairs[..|pairs| - 1];
      LastNone(front, key);
      if forall i :: 0 <= i < |front| ==> front[i].k != key {
        forall i | 0 <= i < |pairs| ensures pairs[i].k != key {
          if i < |front| { assert pairs[i] == front[i]; }
        }
      }
    }
  }

  lemma {:induction false} FindIs(pairs: seq<Pair>, key: bytes, i: nat)
    requires i < |pairs| && pairs[i].k == key && forall j :: 0 <= j < i ==> pairs[j].k != key
    ensures FindKey(pairs, key) == Some(pairs[i].v)
  {
    if i > 0 { FindIs(pairs[1..], key, i - 1); }
  }

  lemma {:induction false} FindNone(pairs: seq<Pair>, key: bytes)
    ensures FindKey(pairs, key) == None <==> forall i :: 0 <= i < |pairs| ==> pairs[i].k != key
  {
    if pairs != [] && pairs[0].k != key {
      var tail := pairs[1..];
      FindNone(tail, key);
      if forall i :: 0 <= i < |tail| ==> tail[i].k != key {
        forall i | 0 <= i < |pairs| ensures pairs[i].k != key {
          if i > 0 { assert pairs[i] == tail[i - 1]; }
        }
      }
    }
  }

  // ------------------------------------------------- building

  /** pairSorter.Less: by key, and the later of two equal keys first. */
  predicate PairLess(pairs: seq<Pair>, i: nat, j: nat)
    requires i < |pairs| && j < |pairs|
  {
    var c := CompareBytes(pairs[i].k, pairs[j].k);
    if c != 0 then c < 0 else i > j
  }

  /** How many items come before item i. */
  function RankOf(pairs: seq<Pair>, i: nat, n: nat): (r: nat)
    requires i < |pairs| && n <= |pairs|
    ensures r <= n
  {
    if n == 0 then 0 else RankOf(pairs, i, n - 1) + if PairLess(pairs, n - 1, i) then 1 else 0
  }

  function PairRanks(pairs: seq<Pair>): (r: seq<nat>)
    ensures |r| == |pairs| && forall i: nat :: i < |pairs| ==> r[i] == RankOf(pairs, i, |pairs|)
  {
    seq(|pairs|, i requires 0 <= i < |pairs| => RankOf(pairs, i, |pairs|))
  }

  lemma EqualKeys(a: bytes, b: bytes)
    ensures CompareBytes(a, b) == 0 <==> a == b
    ensures CompareBytes(b, a) == -CompareBytes(a, b)
  {
    CompareFlip(a, b);
    if CompareBytes(a, b) == 0 { CompareZero(a, b); }
  }

  lemma {:induction false} CompareZero(a: bytes, b: bytes)
    requires CompareBytes(a, b) == 0
    ensures a == b
  {
    if a != [] && b != [] {
      CompareZero(a[1..], b[1..]);
      assert a == [a[0]] + a[1..] && b == [b[0]] + b[1..];
    }
  }

  lemma LessTransitive(pairs: seq<Pair>, i: nat, j: nat, k: nat)
    requires i < |pairs| && j < |pairs| && k < |pairs| && PairLess(pairs, i, j) && PairLess(pairs, j, k)
    ensures PairLess(pairs, i, k)
  {
    var a, b, c := pairs[i].k, pairs[j].k, pairs[k].k;
    EqualKeys(a, b);
    EqualKeys(b, c);
    if a != b && b != c { CompareChain2(a, b, c); }
  }

  lemma LessTotal(pairs: seq<Pair>, i: nat, j: nat)
    requires i < |pairs| && j < |pairs|
    ensures PairLess(pairs, i, j) ==> !PairLess(pairs, j, i)
    ensures i != j && !PairLess(pairs, i, j) ==> PairLess(pairs, j, i)
  {
    EqualKeys(pairs[i].k, pairs[j].k);
  }

  /** What precedes i precedes everything after i. */
  lemma {:induction false} RankGrows(pairs: seq<Pair>, i: nat, j: nat, n: nat)
    requires i < |pairs| && j < |pairs| && n <= |pairs| && PairLess(pairs, i, j)
    ensures RankOf(pairs, i, n) + (if i < n then 1 else 0) <= RankOf(pairs, j, n)
  {
    hide PairLess;
    if n > 0 {
      RankGrows(pairs, i, j, n - 1);
      LessTotal(pairs, i, i);
      if PairLess(pairs, n - 1, i) { LessTransitive(pairs, n - 1, i, j); }
    }
  }

  /** Comparing ranks is what Less does. */
  lemma RanksCompare(pairs: seq<Pair>, i: nat, j: nat)
    requires i < |pairs| && j < |pairs|
    ensures PairLess(pairs, i, j) <==> PairRanks(pairs)[i] < PairRanks(pairs)[j]
    ensures i != j ==> PairRanks(pairs)[i] != PairRanks(pairs)[j]
  {
    hide PairLess;
    LessTotal(pairs, i, j);
    LessTotal(pairs, j, i);
    if PairLess(pairs, i, j) { RankGrows(pairs, i, j, |pairs|); }
    if PairLess(pairs, j, i) { RankGrows(pairs, j, i, |pairs|); }
  }

  /** Less reports equal keys: does the sort ever compare two items with the same key? */
  predicate FoundNonUnique(t: Sort, pairs: seq<Pair>)
    requires Within(t, |pairs|)
  {
    match t
    case Result(_) => false
    case Ask(i, j, less, notLess) =>
      pairs[i].k == pairs[j].k || FoundNonUnique(if PairLess(pairs, i, j) then less else notLess, pairs)
  }

  lemma {:induction false} ComparedFound(t: Sort, pairs: seq<Pair>, a: nat, b: nat)
    requires Within(t, |pairs|) && Compares(t, PairRanks(pairs), a, b) && a < |pairs| && b < |pairs| && pairs[a].k == pairs[b].k
    ensures FoundNonUnique(t, pairs)
  {
    match t
    case Ask(i, j, less, notLess) =>
      RanksCompare(pairs, i, j);
      if !((i == a && j == b) || (i == b && j == a)) {
        ComparedFound(if PairLess(pairs, i, j) then less else notLess, pairs, a, b);
      }
  }

  /** The pairs in sorted order. */
  function Arranged(pairs: seq<Pair>, order: seq<nat>): (s: seq<Pair>)
    requires forall k :: 0 <= k < |order| ==> order[k] < |pairs|
    ensures |s| == |order| && forall k: nat :: k < |order| ==> s[k] == pairs[order[k]]
  {
    seq(|order|, k requires 0 <= k < |order| => pairs[order[k]])
  }

  /** Keys do not decrease. */
  predicate Ascending(s: seq<Pair>) {
    forall i, j :: 0 <= i < j < |s| ==> CompareBytes(s[i].k, s[j].k) <= 0
  }

  /** The first pair of every run of equal keys. */
  function Unique(s: seq<Pair>): seq<Pair> {
    if s == [] then []
    else if |s| > 1 && s[|s| - 2].k == s[|s| - 1].k then Unique(s[..|s| - 1])
    else Unique(s[..|s| - 1]) + [s[|s| - 1]]
  }

  /** unique: the list is compacted in place. */
  method UniqueInPlace(a: array<Pair>, hasNonUnique: bool) returns (n: nat)
    requires Ascending(a[..])
    requires !hasNonUnique ==> forall i :: 0 <= i < a.Length - 1 ==> a[i].k != a[i + 1].k
    modifies a
    ensures n <= a.Length && a[..n] == Unique(old(a[..]))
  {
    hide Ascending, Unique, CompareBytes;
    ghost var s := a[..];
    if !hasNonUnique {
      AllUnique(s);
      return a.Length;
    }
    if a.Length == 0 {
      AllUnique(s);
      return 0;
    }
    var top := 0;
    assert a[..1] == [s[0]] && s[..1] == [s[0]];
    UniqueOne(s[0]);
    for i := 1 to a.Length
      invariant top < i && a[top].k == s[i - 1].k && a[..top + 1] == Unique(s[..i])
      invariant forall k :: i <= k < a.Length ==> a[k] == s[k]
    {
      UniqueStep(s, i);
      if a[top].k != a[i].k {
        top := top + 1;
        if top != i {
          a[top] := a[i];
        }
        assert a[..top + 1] == a[..top] + [a[top]];
      }
    }
    assert s[..a.Length] == s;
    return top + 1;
  }

  lemma UniqueOne(p: Pair)
    ensures Unique([p]) == [p]
  {
    assert [p][..0] == [];
  }

  lemma UniqueStep(s: seq<Pair>, i: nat)
    requires 0 < i < |s|
    ensures Unique(s[..i + 1]) == if s[i - 1].k == s[i].k then Unique(s[..i]) else Unique(s[..i]) + [s[i]]
  {
    assert s[..i + 1][..i] == s[..i];
  }

  lemma {:induction false} AllUnique(s: seq<Pair>)
    requires forall i :: 0 <= i < |s| - 1 ==> s[i].k != s[i + 1].k
    ensures Unique(s) == s
  {
    if s != [] {
      AllUnique(s[..|s| - 1]);
      assert s == s[..|s| - 1] + [s[|s| - 1]];
    }
  }

  /** Compacting a sorted list leaves strictly sorted keys and the first value of each. */
  lemma {:induction false} UniqueMeans(s: seq<Pair>)
    requires Ascending(s)
    ensures SortedPairs(Unique(s)) && forall key :: FindKey(Unique(s), key) == FindKey(s, key)
    ensures s != [] ==> Unique(s) != [] && Unique(s)[|Unique(s)| - 1].k == s[|s| - 1].k
    decreases |s|
  {
    hide CompareBytes, FindKey;
    if s != [] {
      var front, last := s[..|s| - 1], s[|s| - 1];
      UniqueMeans(front);
      assert s == front + [last];
      forall key ensures FindKey(Unique(s), key) == FindKey(s, key) {
        FindSnoc(front, last, key);
        if front != [] && front[|front| - 1].k == last.k {
          if key == last.k { FindNone(front, key); }
        } else {
          FindSnoc(Unique(front), last, key);
        }
      }
      if !(front != [] && front[|front| - 1].k == last.k) {
        var u := Unique(front);
        forall i | 0 <= i < |u| ensures CompareBytes(u[i].k, last.k) < 0 {
          EqualKeys(front[|front| - 1].k, last.k);
          if i < |u| - 1 { CompareChain2(u[i].k, u[|u| - 1].k, last.k); }
        }
      }
    }
  }

  lemma {:induction false} FindSnoc(s: seq<Pair>, p: Pair, key: bytes)
    ensures FindKey(s + [p], key) == if FindKey(s, key).Some? then FindKey(s, key) else if p.k == key then Some(p.v) else None
  {
    if s == [] {
      assert s + [p] == [p] && [p][1..] == [];
    } else {
      assert (s + [p])[1..] == s[1..] + [p];
      FindSnoc(s[1..], p, key);
    }
  }

  /** In sorted order the first value of a key is the last one added. */
  lemma FirstIsLast(pairs: seq<Pair>, order: seq<nat>, key: bytes)
    requires ComparisonSorts.Sorted(order, PairRanks(pairs))
    ensures FindKey(Arranged(pairs, order), key) == Last(pairs, key)
  {
    hide RankOf, PairLess, FindKey, Last, Ranks, PairRanks;
    var s := Arranged(pairs, order);
    if k: nat :| k < |s| && s[k].k == key && (forall j :: 0 <= j < k ==> s[j].k != key) {
      FindIs(s, key, k);
      forall i | order[k] < i < |pairs| ensures pairs[i].k != key { LaterComesFirst(pairs, order, k, i); }
      LastIs(pairs, key, order[k]);
    } else {
      NoFirst(s, key, |s|);
      FindNone(s, key);
      forall i | 0 <= i < |pairs| ensures pairs[i].k != key {
        var m := PlaceOf(order, PairRanks(pairs), i);
        assert s[m] == pairs[i];
      }
      LastNone(pairs, key);
    }
  }

  lemma PlaceOf(order: seq<nat>, rank: seq<nat>, i: nat) returns (m: nat)
    requires ComparisonSorts.Sorted(order, rank) && i < |rank|
    ensures m < |order| && order[m] == i
  {
    assert i in order;
    m :| 0 <= m < |order| && order[m] == i;
  }

  /** A later pair with the same key stands before an earlier one in sorted order. */
  lemma LaterComesFirst(pairs: seq<Pair>, order: seq<nat>, k: nat, i: nat)
    requires ComparisonSorts.Sorted(order, PairRanks(pairs)) && k < |order| && order[k] < i < |pairs|
    requires forall j :: 0 <= j < k ==> pairs[order[j]].k != pairs[order[k]].k
    ensures pairs[i].k != pairs[order[k]].k
  {
    hide RankOf;
    var key := pairs[order[k]].k;
    assert i in order;
    var m :| 0 <= m < |order| && order[m] == i;
    if m > k {
      RanksCompare(pairs, order[k], i);
      EqualKeys(key, key);
    }
  }

  /** Without a first occurrence there is none. */
  lemma {:induction false} NoFirst(s: seq<Pair>, key: bytes, n: nat)
    requires n <= |s| && forall k: nat :: k < |s| && s[k].k == key ==> exists j :: 0 <= j < k && s[j].k == key
    ensures forall k :: 0 <= k < n ==> s[k].k != key
  {
    if n > 0 { NoFirst(s, key, n - 1); }
  }

  lemma ArrangedAscending(pairs: seq<Pair>, order: seq<nat>)
    requires ComparisonSorts.Sorted(order, PairRanks(pairs))
    ensures Ascending(Arranged(pairs, order))
  {
    var s := Arranged(pairs, order);
    forall i, j | 0 <= i < j < |s| ensures CompareBytes(s[i].k, s[j].k) <= 0 {
      RanksCompare(pairs, order[i], order[j]);
    }
  }

  /** The shortcut is sound: a sort that met no equal keys has none in its result. */
  lemma ShortcutSound(t: Sort, pairs: seq<Pair>)
    requires Correct(t, |pairs|)
    ensures Ranks(PairRanks(pairs)) && ComparisonSorts.Sorted(Outcome(t, PairRanks(pairs)), PairRanks(pairs))
    ensures !FoundNonUnique(t, pairs) ==>
      var s := Arranged(pairs, Outcome(t, PairRanks(pairs))); forall k :: 0 <= k < |s| - 1 ==> s[k].k != s[k + 1].k
  {
    hide RankOf, PairLess, FoundNonUnique, Compares;
    var rank := PairRanks(pairs);
    forall i, j | 0 <= i < j < |rank| ensures rank[i] != rank[j] { RanksCompare(pairs, i, j); }
    var order := Outcome(t, rank);
    if !FoundNonUnique(t, pairs) {
      var s := Arranged(pairs, order);
      forall k | 0 <= k < |s| - 1 ensures s[k].k != s[k + 1].k {
        NeighboursCompared(t, rank, k);
        if pairs[order[k]].k == pairs[order[k + 1]].k { ComparedFound(t, pairs, order[k], order[k + 1]); }
      }
    }
  }

  lemma OrderInRange(t: Sort, pairs: seq<Pair>)
    requires Correct(t, |pairs|)
    ensures Within(t, |pairs|) && Ranks(PairRanks(pairs))
    ensures forall k :: 0 <= k < |Outcome(t, PairRanks(pairs))| ==> Outcome(t, PairRanks(pairs))[k] < |pairs|
  {
    ShortcutSound(t, pairs);
  }

  class ObjectBuilder {
    var pairs: seq<Pair>
    var built: bool

    constructor ()
      ensures pairs == [] && !built
    {
      pairs, built := [], false;
    }

    /** Adding after Build panics. */
    method Add(k: bytes, v: Json)
      requires !built
      modifies this
      ensures pairs == old(pairs) + [Pair(k, v)] && !built
    {
      pairs := pairs + [Pair(k, v)];
    }

    /** Build, with any comparison sort that sorts: keys strictly increase and the last value
        added for each key wins. */
    method Build(t: Sort) returns (j: Json)
      requires !built && Correct(t, |pairs|)
      modifies this
      ensures built && j.JObj? && SortedPairs(j.pairs)
      ensures forall key :: FindKey(j.pairs, key) == Last(old(pairs), key)
    {
      hide FindKey, Last, Unique, FoundNonUnique, Ascending, SortedPairs, CompareBytes, RankOf, Outcome, Ranks;
      hide ComparisonSorts.Sorted, PairRanks, Correct;
      ghost var all := pairs;
      OrderInRange(t, pairs);
      ShortcutSound(t, pairs);
      var order := Outcome(t, PairRanks(pairs));
      var sorted := Arranged(pairs, order);
      var hasNonUnique := FoundNonUnique(t, pairs);
      built := true;
      ArrangedAscending(all, order);
      UniqueMeans(sorted);
      forall key ensures FindKey(sorted, key) == Last(all, key) { FirstIsLast(all, order, key); }
      var a := new Pair[|sorted|](i requires 0 <= i < |sorted| => sorted[i]);
      assert a[..] == sorted;
      var n := UniqueInPlace(a, hasNonUnique);
      j := JObj(a[..n]);
    }
  }

  // ------------------------------------------------- setting and removing keys

  /** Replacing pairs[i..stop] by mid in a sorted list, around one key. */
  lemma AroundKey(pairs: seq<Pair>, i: nat, stop: nat, mid: seq<Pair>, key: bytes)
    requires SortedPairs(pairs) && i <= stop <= |pairs| && |mid| <= 1 && (mid != [] ==> mid[0].k == key)
    requires forall k :: 0 <= k < i ==> CompareBytes(pairs[k].k, key) < 0
    requires forall k :: stop <= k < |pairs| ==> CompareBytes(key, pairs[k].k) < 0
    requires forall k :: i <= k < stop ==> pairs[k].k == key
    ensures var r := pairs[..i] + mid + pairs[stop..];
            SortedPairs(r) && forall other :: FindKey(r, other) == Around(pairs, mid, key, other)
  {
    hide CompareBytes, FindKey;
    AroundSorted(pairs, i, stop, mid, key);
    forall other ensures FindKey(pairs[..i] + mid + pairs[stop..], other) == Around(pairs, mid, key, other) {
      AroundFind(pairs, i, stop, mid, key, other);
    }
  }

  function Around(pairs: seq<Pair>, mid: seq<Pair>, key: bytes, other: bytes): Option<Json> {
    if other != key then FindKey(pairs, other) else if mid != [] then Some(mid[0].v) else None
  }

  lemma AroundSorted(pairs: seq<Pair>, i: nat, stop: nat, mid: seq<Pair>, key: bytes)
    requires SortedPairs(pairs) && i <= stop <= |pairs| && |mid| <= 1 && (mid != [] ==> mid[0].k == key)
    requires forall k :: 0 <= k < i ==> CompareBytes(pairs[k].k, key) < 0
    requires forall k :: stop <= k < |pairs| ==> CompareBytes(key, pairs[k].k) < 0
    ensures SortedPairs(pairs[..i] + mid + pairs[stop..])
  {
    hide CompareBytes;
    var r, m := pairs[..i] + mid + pairs[stop..], i + |mid|;
    assert forall a :: 0 <= a < i ==> r[a] == pairs[a];
    assert forall a :: m <= a < |r| ==> r[a] == pairs[stop + a - m];
    forall a, b | 0 <= a < b < |r| ensures CompareBytes(r[a].k, r[b].k) < 0 {
      if a < i && b >= m { assert CompareBytes(pairs[a].k, pairs[stop + b - m].k) < 0; }
    }
  }

  lemma AroundFind(pairs: seq<Pair>, i: nat, stop: nat, mid: seq<Pair>, key: bytes, other: bytes)
    requires i <= stop <= |pairs| && |mid| <= 1 && (mid != [] ==> mid[0].k == key)
    requires forall k :: 0 <= k < i ==> CompareBytes(pairs[k].k, key) < 0
    requires forall k :: stop <= k < |pairs| ==> CompareBytes(key, pairs[k].k) < 0
    requires forall k :: i <= k < stop ==> pairs[k].k == key
    ensures FindKey(pairs[..i] + mid + pairs[stop..], other) == Around(pairs, mid, key, other)
  {
    hide CompareBytes, FindKey;
    var a, b, c := pairs[..i], pairs[i..stop], pairs[stop..];
    assert pairs == a + b + c;
    FindConcat(a + mid, c, other);
    FindConcat(a, mid, other);
    FindConcat(a + b, c, other);
    FindConcat(a, b, other);
    FindSame(mid, key, other);
    FindSame(b, key, other);
    if other == key {
      EqualKeys(key, key);
      FindNone(a, key);
      FindNone(c, key);
    }
  }

  lemma {:induction false} FindConcat(a: seq<Pair>, b: seq<Pair>, key: bytes)
    ensures FindKey(a + b, key) == if FindKey(a, key).Some? then FindKey(a, key) else FindKey(b, key)
    decreases |a|
  {
    if a == [] {
      assert a + b == b;
    } else {
      assert (a + b)[1..] == a[1..] + b;
      FindConcat(a[1..], b, key);
    }
  }

  lemma FindSame(s: seq<Pair>, key: bytes, other: bytes)
    requires forall k :: 0 <= k < |s| ==> s[k].k == key
    ensures FindKey(s, other) == if other == key && s != [] then Some(s[0].v) else None
  {
    FindNone(s, other);
  }

  /** What a lookup finds after setting a key: existing keys are replaced, missing ones are added
      only if asked. */
  function SetTo(pairs: seq<Pair>, key: bytes, to: Json, createMissing: bool, other: bytes): Option<Json> {
    if other == key && (createMissing || FindKey(pairs, key).Some?) then Some(to) else FindKey(pairs, other)
  }

  /** SetKey. */
  method SetKey(pairs: seq<Pair>, key: bytes, to: Json, createMissing: bool) returns (result: seq<Pair>)
    requires SortedPairs(pairs)
    ensures SortedPairs(result)
    ensures forall other :: FindKey(result, other) == SetTo(pairs, key, to, createMissing, other)
  {
    hide CompareBytes, FindKey, SortedPairs, SetTo;
    result := [];
    var curIdx := 0;
    while curIdx < |pairs| && CompareBytes(pairs[curIdx].k, key) < 0
      invariant 0 <= curIdx <= |pairs| && result == pairs[..curIdx]
      invariant forall k :: 0 <= k < curIdx ==> CompareBytes(pairs[k].k, key) < 0
    {
      result := result + [pairs[curIdx]];
      curIdx := curIdx + 1;
    }
    ghost var i := curIdx;
    var keyAlreadyExists := curIdx < |pairs| && pairs[curIdx].k == key;
    ghost var mid: seq<Pair> := [];
    if createMissing || keyAlreadyExists {
      result := result + [Pair(key, to)];
      mid := [Pair(key, to)];
    }
    if keyAlreadyExists {
      curIdx := curIdx + 1;
    }
    ghost var stop := curIdx;
    while curIdx < |pairs|
      invariant stop <= curIdx <= |pairs| && result == pairs[..i] + mid + pairs[stop..curIdx]
    {
      result := result + [pairs[curIdx]];
      curIdx := curIdx + 1;
    }
    assert pairs[stop..curIdx] == pairs[stop..];
    SetMeans(pairs, i, key, to, createMissing);
  }

  lemma SetMeans(pairs: seq<Pair>, i: nat, key: bytes, to: Json, createMissing: bool)
    requires SortedPairs(pairs) && i <= |pairs| && (i < |pairs| ==> CompareBytes(pairs[i].k, key) >= 0)
    requires forall k :: 0 <= k < i ==> CompareBytes(pairs[k].k, key) < 0
    ensures var found := i < |pairs| && pairs[i].k == key;
            var r := pairs[..i] + (if createMissing || found then [Pair(key, to)] else []) + pairs[if found then i + 1 else i..];
            SortedPairs(r) && forall other :: FindKey(r, other) == SetTo(pairs, key, to, createMissing, other)
  {
    hide CompareBytes, FindKey;
    var found := i < |pairs| && pairs[i].k == key;
    var stop := if found then i + 1 else i;
    var mid := if createMissing || found then [Pair(key, to)] else [];
    AfterKey(pairs, i, stop, key);
    AroundKey(pairs, i, stop, mid, key);
    AroundKey(pairs, i, stop, pairs[i..stop], key);
    KeyPresent(pairs, i, stop, key);
  }

  lemma KeyPresent(pairs: seq<Pair>, i: nat, stop: nat, key: bytes)
    requires i <= stop <= |pairs| && forall other :: FindKey(pairs[..i] + pairs[i..stop] + pairs[stop..], other) == Around(pairs, pairs[i..stop], key, other)
    ensures FindKey(pairs, key).Some? <==> i < stop
  {
    hide FindKey;
    assert pairs[..i] + pairs[i..stop] + pairs[stop..] == pairs;
  }

  /** Behind the place of a key in a sorted list all keys are larger. */
  lemma AfterKey(pairs: seq<Pair>, i: nat, stop: nat, key: bytes)
    requires SortedPairs(pairs) && i <= stop <= |pairs| && (i < |pairs| ==> CompareBytes(pairs[i].k, key) >= 0)
    requires stop == if i < |pairs| && pairs[i].k == key then i + 1 else i
    ensures forall k :: stop <= k < |pairs| ==> CompareBytes(key, pairs[k].k) < 0
  {
    hide CompareBytes;
    if i < |pairs| { EqualKeys(pairs[i].k, key); }
    forall k | stop <= k < |pairs| ensures CompareBytes(key, pairs[k].k) < 0 {
      if k > i && pairs[i].k != key { CompareChain2(key, pairs[i].k, pairs[k].k); }
    }
  }

  function Keys(pairs: seq<Pair>): (ks: seq<bytes>)
    ensures |ks| == |pairs| && forall i: nat :: i < |pairs| ==> ks[i] == pairs[i].k
  {
    seq(|pairs|, i requires 0 <= i < |pairs| => pairs[i].k)
  }

  /** jsonObject.RemoveString. */
  method RemoveString(pairs: seq<Pair>, key: bytes) returns (result: seq<Pair>, removed: bool)
    requires SortedPairs(pairs)
    ensures SortedPairs(result) && (removed <==> FindKey(pairs, key).Some?)
    ensures forall other :: FindKey(result, other) == if other == key then None else FindKey(pairs, other)
  {
    KeysSorted(pairs);
    hide CompareBytes, FindKey, SortedPairs, JsonReader.SortedKeys;
    var idx, ok := JsonReader.FindPairIndexByKey(Keys(pairs), key);
    FindNone(pairs, key);
    if !ok {
      forall i | 0 <= i < |pairs| ensures pairs[i].k != key { assert Keys(pairs)[i] in Keys(pairs); }
      return pairs, false;
    }
    result := CopyWithout(pairs, idx);
    RemovedMeans(pairs, key, idx);
    removed := true;
  }

  /** The copying loops of RemoveString. */
  method CopyWithout(pairs: seq<Pair>, idx: nat) returns (result: seq<Pair>)
    requires idx < |pairs|
    ensures result == pairs[..idx] + pairs[idx + 1..]
  {
    var n := |pairs| - 1;
    var newVal := new Pair[n](i => pairs[0]);
    for i := 0 to idx
      invariant forall k :: 0 <= k < i ==> newVal[k] == pairs[k]
    {
      newVal[i] := pairs[i];
    }
    for i := 0 to n - idx
      invariant forall k :: 0 <= k < idx ==> newVal[k] == pairs[k]
      invariant forall k :: idx <= k < idx + i ==> newVal[k] == pairs[k + 1]
    {
      newVal[idx + i] := pairs[idx + 1 + i];
    }
    return newVal[..];
  }

  lemma KeysSorted(pairs: seq<Pair>)
    requires SortedPairs(pairs)
    ensures JsonReader.SortedKeys(Keys(pairs))
  {
    hide CompareBytes;
  }

  /** Cutting the pair of a key out of a sorted list. */
  lemma RemovedMeans(pairs: seq<Pair>, key: bytes, i: nat)
    requires SortedPairs(pairs) && i < |pairs| && pairs[i].k == key
    ensures var r := pairs[..i] + pairs[i + 1..];
            SortedPairs(r) && FindKey(pairs, key).Some? && forall other :: FindKey(r, other) == if other == key then None else FindKey(pairs, other)
  {
    hide CompareBytes, FindKey;
    EqualKeys(pairs[i].k, key);
    AfterKey(pairs, i, i + 1, key);
    forall k | 0 <= k < i ensures CompareBytes(pairs[k].k, key) < 0 { }
    AroundKey(pairs, i, i + 1, [], key);
    assert pairs[..i] + [] + pairs[i + 1..] == pairs[..i] + pairs[i + 1..];
    FindNone(pairs, key);
  }

  // ------------------------------------------------- merging

  /** The merge of two sorted lists, the right one winning. */
  function Merged(left: seq<Pair>, right: seq<Pair>): seq<Pair>
    decreases |left| + |right|
  {
    if left == [] then right
    else if right == [] then left
    else if right[0].k == left[0].k then [right[0]] + Merged(left[1..], right[1..])
    else if CompareBytes(right[0].k, left[0].k) < 0 then [right[0]] + Merged(left, right[1..])
    else [left[0]] + Merged(left[1..], right)
  }

  /** jsonObject.Concat with another object. */
  method ConcatObjects(left: seq<Pair>, right: seq<Pair>) returns (result: seq<Pair>)
    requires SortedPairs(left) && SortedPairs(right)
    ensures SortedPairs(result)
    ensures forall key :: FindKey(result, key) == if FindKey(right, key).Some? then FindKey(right, key) else FindKey(left, key)
  {
    hide FindKey, CompareBytes, Merged;
    result := [];
    var rightIdx := 0;
    for i := 0 to |left|
      invariant rightIdx <= |right| && result + Merged(left[i..], right[rightIdx..]) == Merged(left, right)
    {
      var kv := left[i];
      while rightIdx < |right| && CompareBytes(right[rightIdx].k, kv.k) < 0
        invariant rightIdx <= |right| && result + Merged(left[i..], right[rightIdx..]) == Merged(left, right)
      {
        MergeRight(left, right, i, rightIdx);
        Appended(result, right[rightIdx], Merged(left[i..], right[rightIdx + 1..]));
        result := result + [right[rightIdx]];
        rightIdx := rightIdx + 1;
      }
      MergeHead(left, right, i, rightIdx);
      if rightIdx < |right| && right[rightIdx].k == kv.k {
        Appended(result, right[rightIdx], Merged(left[i + 1..], right[rightIdx + 1..]));
        result := result + [right[rightIdx]];
        rightIdx := rightIdx + 1;
      } else {
        Appended(result, kv, Merged(left[i + 1..], right[rightIdx..]));
        result := result + [kv];
      }
    }
    result := result + right[rightIdx..];
    assert left[|left|..] == [];
    MergedNothing(right[rightIdx..]);
    assert result == Merged(left, right);
    forall key ensures FindKey(result, key) == if FindKey(right, key).Some? then FindKey(right, key) else FindKey(left, key) {
      MergedMeans(left, right, key);
    }
    MergedSorted(left, right);
  }

  lemma Appended(a: seq<Pair>, p: Pair, b: seq<Pair>)
    ensures a + ([p] + b) == a + [p] + b
  {
  }

  lemma MergeRight(left: seq<Pair>, right: seq<Pair>, i: nat, j: nat)
    requires i < |left| && j < |right| && CompareBytes(right[j].k, left[i].k) < 0
    ensures Merged(left[i..], right[j..]) == [right[j]] + Merged(left[i..], right[j + 1..])
  {
    EqualKeys(right[j].k, left[i].k);
    hide CompareBytes;
    assert right[j..][1..] == right[j + 1..];
  }

  lemma MergeHead(left: seq<Pair>, right: seq<Pair>, i: nat, j: nat)
    requires i < |left| && j <= |right| && (j < |right| ==> CompareBytes(right[j].k, left[i].k) >= 0)
    ensures Merged(left[i..], right[j..]) ==
      if j < |right| && right[j].k == left[i].k then [right[j]] + Merged(left[i + 1..], right[j + 1..])
      else [left[i]] + Merged(left[i + 1..], right[j..])
  {
    hide CompareBytes;
    assert left[i..][1..] == left[i + 1..];
    if j < |right| { assert right[j..][1..] == right[j + 1..]; }
    if j == |right| {
      assert left[i..] == [left[i]] + left[i + 1..];
      MergedNothing(left[i + 1..]);
      assert right[j..] == [];
    }
  }

  lemma MergedNothing(left: seq<Pair>)
    ensures Merged(left, []) == left && Merged([], left) == left
  {
  }

  lemma SortedTail(s: seq<Pair>)
    requires SortedPairs(s) && s != []
    ensures SortedPairs(s[1..]) && FindKey(s[1..], s[0].k) == None
  {
    hide CompareBytes;
    var t := s[1..];
    assert forall i :: 0 <= i < |t| ==> t[i] == s[i + 1];
    EqualKeys(s[0].k, s[0].k);
    FindNone(t, s[0].k);
  }

  lemma {:induction false} MergedMeans(left: seq<Pair>, right: seq<Pair>, key: bytes)
    requires SortedPairs(left) && SortedPairs(right)
    ensures FindKey(Merged(left, right), key) == if FindKey(right, key).Some? then FindKey(right, key) else FindKey(left, key)
    decreases |left| + |right|
  {
    hide CompareBytes, SortedPairs;
    if left != [] && right != [] {
      SortedTail(left);
      SortedTail(right);
      var l, r := left[0], right[0];
      if r.k == l.k {
        MergedMeans(left[1..], right[1..], key);
      } else if CompareBytes(r.k, l.k) < 0 {
        MergedMeans(left, right[1..], key);
      } else {
        MergedMeans(left[1..], right, key);
        EqualKeys(r.k, l.k);
        if l.k == key { NotBelow(right, key); }
      }
    }
  }

  /** A key below the first of a sorted list is not in it. */
  lemma NotBelow(s: seq<Pair>, key: bytes)
    requires SortedPairs(s) && s != [] && CompareBytes(key, s[0].k) < 0
    ensures FindKey(s, key) == None
  {
    hide CompareBytes, FindKey;
    FindNone(s, key);
    EqualKeys(key, key);
    forall i | 0 <= i < |s| ensures s[i].k != key {
      if i > 0 { CompareChain2(key, s[0].k, s[i].k); }
    }
  }

  /** Every key of s is above key. */
  predicate Above(key: bytes, s: seq<Pair>) {
    forall i :: 0 <= i < |s| ==> CompareBytes(key, s[i].k) < 0
  }

  lemma SortedCons(p: Pair, s: seq<Pair>)
    requires SortedPairs(s) && Above(p.k, s)
    ensures SortedPairs([p] + s)
  {
    hide CompareBytes;
  }

  lemma TailAbove(s: seq<Pair>, key: bytes)
    requires SortedPairs(s) && s != [] && CompareBytes(key, s[0].k) < 0
    ensures Above(key, s) && Above(s[0].k, s[1..])
  {
    hide CompareBytes;
    forall i | 0 <= i < |s| ensures CompareBytes(key, s[i].k) < 0 {
      if i > 0 { CompareChain2(key, s[0].k, s[i].k); }
    }
  }

  lemma FrontAbove(s: seq<Pair>)
    requires SortedPairs(s) && s != []
    ensures Above(s[0].k, s[1..])
  {
    hide CompareBytes;
  }

  lemma {:induction false} MergedAbove(left: seq<Pair>, right: seq<Pair>, key: bytes)
    requires Above(key, left) && Above(key, right)
    ensures Above(key, Merged(left, right))
    decreases |left| + |right|
  {
    hide CompareBytes;
    if left != [] && right != [] {
      if right[0].k == left[0].k { MergedAbove(left[1..], right[1..], key); }
      else if CompareBytes(right[0].k, left[0].k) < 0 { MergedAbove(left, right[1..], key); }
      else { MergedAbove(left[1..], right, key); }
    }
  }

  lemma {:induction false} MergedSorted(left: seq<Pair>, right: seq<Pair>)
    requires SortedPairs(left) && SortedPairs(right)
    ensures SortedPairs(Merged(left, right))
    decreases |left| + |right|
  {
    hide CompareBytes, SortedPairs, Above, FindKey;
    if left != [] && right != [] {
      var l, r := left[0], right[0];
      SortedTail(left);
      SortedTail(right);
      FrontAbove(left);
      FrontAbove(right);
      EqualKeys(r.k, l.k);
      if r.k == l.k {
        MergedSorted(left[1..], right[1..]);
        MergedAbove(left[1..], right[1..], r.k);
        SortedCons(r, Merged(left[1..], right[1..]));
      } else if CompareBytes(r.k, l.k) < 0 {
        MergedSorted(left, right[1..]);
        TailAbove(left, r.k);
        MergedAbove(left, right[1..], r.k);
        SortedCons(r, Merged(left, right[1..]));
      } else {
        MergedSorted(left[1..], right);
        TailAbove(right, l.k);
        MergedAbove(left[1..], right, l.k);
        SortedCons(l, Merged(left[1..], right));
      }
    }
  }
}
