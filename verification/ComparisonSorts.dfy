/** Comparison sorts as decision trees, and what each of them must compare: the argument behind
    pairSorter.unique in pkg/util/json/json.go. */
module ComparisonSorts {

  /** A sorting procedure that learns about its items only by comparing them. */
  datatype Sort =
    | Result(order: seq<nat>)
    | Ask(i: nat, j: nat, less: Sort, notLess: Sort)

  /** The procedure asks about items 0 to n - 1 only. */
  predicate Within(t: Sort, n: nat) {
    match t
    case Result(_) => true
    case Ask(i, j, less, notLess) => i < n && j < n && Within(less, n) && Within(notLess, n)
  }

  /** A strict order of the items, as the rank of each; different items have different ranks. */
  predicate Ranks(rank: seq<nat>) {
    forall i, j :: 0 <= i < j < |rank| ==> rank[i] != rank[j]
  }

  function Outcome(t: Sort, rank: seq<nat>): seq<nat>
    requires Within(t, |rank|)
  {
    match t
    case Result(order) => order
    case Ask(i, j, less, notLess) => if rank[i] < rank[j] then Outcome(less, rank) else Outcome(notLess, rank)
  }

  /** On this input the procedure compares items a and b. */
  predicate Compares(t: Sort, rank: seq<nat>, a: nat, b: nat)
    requires Within(t, |rank|)
  {
    match t
    case Result(_) => false
    case Ask(i, j, less, notLess) =>
      (i == a && j == b) || (i == b && j == a) ||
      (if rank[i] < rank[j] then Compares(less, rank, a, b) else Compares(notLess, rank, a, b))
  }

  /** order lists every item once, by increasing rank. */
  ghost predicate Sorted(order: seq<nat>, rank: seq<nat>) {
    && |order| == |rank| && (forall k :: 0 <= k < |order| ==> order[k] < |rank|)
    && (forall i: nat :: i < |rank| ==> i in order)
    && (forall k, l :: 0 <= k < l < |order| ==> rank[order[k]] < rank[order[l]])
  }

  /** The procedure sorts n items, however they are ordered. */
  ghost predicate Correct(t: Sort, n: nat) {
    Within(t, n) && forall rank: seq<nat> :: |rank| == n && Ranks(rank) ==> Sorted(Outcome(t, rank), rank)
  }

  function Exchanged(rank: seq<nat>, a: nat, b: nat): (r: seq<nat>)
    requires a < |rank| && b < |rank|
    ensures |r| == |rank| && forall i: nat :: i < |rank| ==> r[i] == if i == a then rank[b] else if i == b then rank[a] else rank[i]
  {
    rank[a := rank[b]][b := rank[a]]
  }

  /** No item ranks between a and b. */
  ghost predicate Neighbours(rank: seq<nat>, a: nat, b: nat)
    requires a < |rank| && b < |rank|
  {
    rank[a] < rank[b] && forall i: nat :: i < |rank| ==> rank[i] <= rank[a] || rank[i] >= rank[b]
  }

  /** Exchanging two neighbours that are never compared changes nothing the procedure sees. */
  lemma {:induction false} SamePath(t: Sort, rank: seq<nat>, a: nat, b: nat)
    requires Within(t, |rank|) && Ranks(rank) && a < |rank| && b < |rank| && Neighbours(rank, a, b) && !Compares(t, rank, a, b)
    ensures Outcome(t, Exchanged(rank, a, b)) == Outcome(t, rank)
  {
    match t
    case Result(_) =>
    case Ask(i, j, less, notLess) =>
      var r := Exchanged(rank, a, b);
      assert r[i] < r[j] <==> rank[i] < rank[j];
      SamePath(if rank[i] < rank[j] then less else notLess, rank, a, b);
  }

  lemma SortedNeighbours(order: seq<nat>, rank: seq<nat>, k: nat)
    requires Sorted(order, rank) && k + 1 < |order|
    ensures Neighbours(rank, order[k], order[k + 1])
  {
    forall i: nat | i < |rank| ensures rank[i] <= rank[order[k]] || rank[i] >= rank[order[k + 1]] {
      assert i in order;
      var m :| 0 <= m < |order| && order[m] == i;
    }
  }

  /** Every correct comparison sort compares each two neighbours of its result with each other. */
  lemma NeighboursCompared(t: Sort, rank: seq<nat>, k: nat)
    requires Correct(t, |rank|) && Ranks(rank) && k + 1 < |rank|
    ensures Sorted(Outcome(t, rank), rank)
    ensures Compares(t, rank, Outcome(t, rank)[k], Outcome(t, rank)[k + 1])
  {
    var order := Outcome(t, rank);
    var a, b := order[k], order[k + 1];
    SortedNeighbours(order, rank, k);
    ExchangedRanks(rank, a, b);
    NotBothSorted(order, rank, k);
    hide Sorted, Exchanged, Compares;
    if !Compares(t, rank, a, b) { SamePath(t, rank, a, b); }
  }

  lemma ExchangedRanks(rank: seq<nat>, a: nat, b: nat)
    requires Ranks(rank) && a < |rank| && b < |rank|
    ensures Ranks(Exchanged(rank, a, b))
  {
  }

  lemma NotBothSorted(order: seq<nat>, rank: seq<nat>, k: nat)
    requires Sorted(order, rank) && k + 1 < |order|
    ensures !Sorted(order, Exchanged(rank, order[k], order[k + 1]))
  {
    var r := Exchanged(rank, order[k], order[k + 1]);
    assert r[order[k]] == rank[order[k + 1]] && r[order[k + 1]] == rank[order[k]];
  }

  // ------------------------------------------------- there are such procedures

  /** Insertion sort: items 0 to next - 1 are in order in `done`. */
  function Growing(done: seq<nat>, next: nat, n: nat): Sort
    decreases n - next, 1, 0
  {
    if next >= n then Result(done) else Inserting(done, |done|, next, n)
  }

  /** The item `next` goes somewhere before position `at`, or there. */
  function Inserting(done: seq<nat>, at: nat, next: nat, n: nat): Sort
    requires at <= |done| && next < n
    decreases n - next, 0, at
  {
    var here := Growing(done[..at] + [next] + done[at..], next + 1, n);
    if at == 0 then here else Ask(next, done[at - 1], Inserting(done, at - 1, next, n), here)
  }

  /** `done` lists the first items by increasing rank. */
  ghost predicate Begun(done: seq<nat>, next: nat, rank: seq<nat>) {
    next <= |rank| && Sorted(done, rank[..next])
  }

  lemma BegunInsert(done: seq<nat>, at: nat, next: nat, rank: seq<nat>)
    requires next < |rank| && Begun(done, next, rank) && at <= |done|
    requires forall k :: 0 <= k < at ==> rank[done[k]] < rank[next]
    requires forall k :: at <= k < |done| ==> rank[next] < rank[done[k]]
    ensures Begun(done[..at] + [next] + done[at..], next + 1, rank)
  {
    var r := done[..at] + [next] + done[at..];
    forall i: nat | i < next + 1 ensures i in r {
      if i < next {
        assert i in done;
        var k :| 0 <= k < |done| && done[k] == i;
        assert r[if k < at then k else k + 1] == i;
      } else {
        assert r[at] == next;
      }
    }
  }

  predicate Below(done: seq<nat>, n: nat) {
    forall k :: 0 <= k < |done| ==> done[k] < n
  }

  lemma {:induction false} GrowingWithin(done: seq<nat>, next: nat, n: nat)
    requires Below(done, n)
    ensures Within(Growing(done, next, n), n)
    decreases n - next, 1, 0
  {
    if next < n { InsertingWithin(done, |done|, next, n); }
  }

  lemma {:induction false} InsertingWithin(done: seq<nat>, at: nat, next: nat, n: nat)
    requires Below(done, n) && at <= |done| && next < n
    ensures Within(Inserting(done, at, next, n), n)
    decreases n - next, 0, at
  {
    GrowingWithin(done[..at] + [next] + done[at..], next + 1, n);
    if at > 0 { InsertingWithin(done, at - 1, next, n); }
  }

  lemma {:induction false} GrowingSorts(done: seq<nat>, next: nat, rank: seq<nat>)
    requires Begun(done, next, rank) && Ranks(rank) && Below(done, |rank|)
    ensures Within(Growing(done, next, |rank|), |rank|)
    ensures Sorted(Outcome(Growing(done, next, |rank|), rank), rank)
    decreases |rank| - next, 1, 0
  {
    GrowingWithin(done, next, |rank|);
    if next == |rank| { assert rank[..next] == rank; } else { InsertingSorts(done, |done|, next, rank); }
  }

  lemma {:induction false} InsertingSorts(done: seq<nat>, at: nat, next: nat, rank: seq<nat>)
    requires next < |rank| && Begun(done, next, rank) && Ranks(rank) && at <= |done| && Below(done, |rank|)
    requires forall k :: at <= k < |done| ==> rank[next] < rank[done[k]]
    ensures Within(Inserting(done, at, next, |rank|), |rank|)
    ensures Sorted(Outcome(Inserting(done, at, next, |rank|), rank), rank)
    decreases |rank| - next, 0, at
  {
    hide Sorted;
    InsertingWithin(done, at, next, |rank|);
    var asked := at > 0 && rank[next] < rank[done[at - 1]];
    if asked {
      InsertingSorts(done, at - 1, next, rank);
    } else {
      var r := done[..at] + [next] + done[at..];
      BelowNext(done, at, next, rank);
      BegunInsert(done, at, next, rank);
      GrowingSorts(r, next + 1, rank);
    }
  }

  /** What stands before an item that is not smaller ranks below the new one. */
  lemma BelowNext(done: seq<nat>, at: nat, next: nat, rank: seq<nat>)
    requires next < |rank| && Begun(done, next, rank) && Ranks(rank) && at <= |done|
    requires at > 0 ==> rank[next] >= rank[done[at - 1]]
    ensures forall k :: 0 <= k < at ==> rank[done[k]] < rank[next]
  {
    forall k | 0 <= k < at ensures rank[done[k]] < rank[next] {
      assert done[k] < next && done[at - 1] < next;
      assert rank[..next][done[k]] <= rank[..next][done[at - 1]];
    }
  }

  /** Procedures that sort n items exist for every n: insertion sort is one. */
  lemma InsertionSorts(n: nat)
    ensures Correct(Growing([], 0, n), n)
  {
    GrowingWithin([], 0, n);
    forall rank: seq<nat> | |rank| == n && Ranks(rank) ensures Sorted(Outcome(Growing([], 0, n), rank), rank) {
      GrowingSorts([], 0, rank);
    }
  }
}
