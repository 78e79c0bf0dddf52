/** Where paths lead: what indexing, containment, existence and stripping mean for the members of a
    document (pkg/util/json/json.go, contains_testers.go). */
module JsonPaths {
  import opened ByteStrings
  import opened Wrappers
  import opened Json
  import opened JsonLazy
  import opened JsonContains
  import opened JsonCompare
  import opened JsonStrip
  import opened JsonReader

  // ------------------------------------------------- indices

  /** Indices count from the front, negative ones from the back; there is nothing elsewhere, and
      nothing in a document that is no array. */
  lemma FetchIdxMeans(j: Json, i: int)
    ensures j.JArr? && 0 <= i < |j.items| ==> FetchIdx(j, i) == Some(j.items[i]) && FetchIdx(j, i - |j.items|) == Some(j.items[i])
    ensures j.JArr? && !(-|j.items| <= i < |j.items|) ==> FetchIdx(j, i) == None
    ensures !j.JArr? ==> FetchIdx(j, i) == None
  {
  }

  // ------------------------------------------------- stripping

  /** The path steps into a field that is null. */
  predicate ThroughNull(j: Json, path: seq<Step>)
    decreases |path|
  {
    path != [] &&
    match JsonStep(j, path[0])
    case None => false
    case Some(next) => (path[0].Key? && next.JNull?) || ThroughNull(next, path[1..])
  }

  /** Every path leads in a stripped document where it led before, to the stripped value; only paths
      through null fields lead nowhere. */
  lemma {:induction false} StripPath(j: Json, path: seq<Step>)
    requires Sorted(j)
    ensures JsonPath(Strip(j), path) ==
      if ThroughNull(j, path) then None
      else match JsonPath(j, path) case None => None case Some(v) => Some(Strip(v))
    decreases |path|
  {
    hide Strip;
    if path != [] {
      StripStep(j, path[0]);
      if JsonStep(j, path[0]).Some? {
        SortedStep(j, path[0]);
        StripPath(JsonStep(j, path[0]).value, path[1..]);
      }
    }
  }

  lemma StripStep(j: Json, s: Step)
    requires Sorted(j)
    ensures JsonStep(Strip(j), s) ==
      match JsonStep(j, s)
      case None => None
      case Some(v) => if s.Key? && v.JNull? then None else Some(Strip(v))
  {
    match s
    case Key(k) => if j.JObj? { StripLookup(j.pairs, k); }
    case Idx(i) => if j.JArr? { StripItemsAt(j.items); }
  }

  /** Elements stay where they are. */
  lemma {:induction false} StripItemsAt(items: seq<Json>)
    ensures forall i :: 0 <= i < |items| ==> StripItems(items)[i] == Strip(items[i])
    decreases items
  {
    if items != [] { StripItemsAt(items[1..]); }
  }

  lemma SortedStep(j: Json, s: Step)
    requires Sorted(j) && JsonStep(j, s).Some?
    ensures Sorted(JsonStep(j, s).value)
  {
    if s.Key? { FindIsMember(j.pairs, s.k); }
  }

  lemma {:induction false} FindIsMember(pairs: seq<Pair>, key: bytes)
    ensures FindKey(pairs, key).Some? ==> Pair(key, FindKey(pairs, key).value) in pairs
  {
    if pairs != [] && pairs[0].k != key {
      FindIsMember(pairs[1..], key);
    } else if pairs != [] {
      assert pairs[0] == Pair(key, pairs[0].v);
    }
  }

  // ------------------------------------------------- containment

  datatype Turn = Member | Field(k: bytes)

  /** A document that is one path to a leaf. */
  function Along(path: seq<Turn>, leaf: Json): Json {
    if path == [] then leaf
    else
      var inner := Along(path[1..], leaf);
      match path[0]
      case Member => JArr([inner])
      case Field(k) => JObj([Pair(k, inner)])
  }

  /** Some way through a takes these turns and ends at a scalar like the leaf, or at any array or
      object if the leaf is an empty one. */
  ghost predicate Leads(a: Json, path: seq<Turn>, leaf: Json)
    decreases |path|
  {
    if path == [] then
      if leaf.JArr? then a.JArr? else if leaf.JObj? then a.JObj? else Alike(a, leaf)
    else
      match path[0]
      case Member => a.JArr? && exists x :: x in a.items && Leads(x, path[1..], leaf)
      case Field(k) => a.JObj? && exists p: Pair :: p in a.pairs && p.k == k && Leads(p.v, path[1..], leaf)
  }

  predicate LeafDoc(leaf: Json) {
    Numeric(leaf) && (leaf.JArr? ==> leaf.items == []) && (leaf.JObj? ==> leaf.pairs == [])
  }

  lemma {:induction false} AlongNumeric(path: seq<Turn>, leaf: Json)
    requires LeafDoc(leaf)
    ensures Numeric(Along(path, leaf))
    decreases |path|
  {
    if path != [] { AlongNumeric(path[1..], leaf); }
  }

  /** A document contains one path exactly if it leads somewhere along it. */
  lemma {:induction false} PathContained(a: Json, path: seq<Turn>, leaf: Json)
    requires Numeric(a) && LeafDoc(leaf)
    ensures SlowIn(a, Along(path, leaf)) <==> Leads(a, path, leaf)
    decreases |path|, 1
  {
    hide Alike, SlowIn;
    if path == [] {
      LeafContained(a, leaf);
    } else {
      AlongNumeric(path[1..], leaf);
      if path[0].Member? {
        MemberContained(a, path, leaf);
      } else {
        FieldContained(a, path, leaf);
      }
    }
  }

  lemma LeafContained(a: Json, leaf: Json)
    requires Numeric(a) && LeafDoc(leaf)
    ensures SlowIn(a, leaf) <==> Leads(a, [], leaf)
  {
    hide Alike;
    if IsScalar(leaf) {
      CompareZero(a, leaf);
      ScalarIn(a, leaf);
    }
  }

  lemma MemberContained(a: Json, path: seq<Turn>, leaf: Json)
    requires Numeric(a) && LeafDoc(leaf) && path != [] && path[0].Member?
    ensures SlowIn(a, Along(path, leaf)) <==> Leads(a, path, leaf)
    decreases |path|, 0
  {
    hide Alike, SlowIn;
    var inner := Along(path[1..], leaf);
    if a.JArr? {
      forall x | x in a.items ensures SlowIn(x, inner) <==> Leads(x, path[1..], leaf) { PathContained(x, path[1..], leaf); }
      forall x | x in a.items && SlowIn(x, inner) ensures TypeRank(x) == TypeRank(inner) { SameRank(x, inner); }
      OneMember(a, inner);
    } else {
      NotIn(a, JArr([inner]));
    }
  }

  lemma FieldContained(a: Json, path: seq<Turn>, leaf: Json)
    requires Numeric(a) && LeafDoc(leaf) && path != [] && path[0].Field?
    ensures SlowIn(a, Along(path, leaf)) <==> Leads(a, path, leaf)
    decreases |path|, 0
  {
    hide Alike, SlowIn;
    var inner := Along(path[1..], leaf);
    if a.JObj? {
      forall p: Pair | p in a.pairs ensures SlowIn(p.v, inner) <==> Leads(p.v, path[1..], leaf) { PathContained(p.v, path[1..], leaf); }
      OneField(a, path[0].k, inner);
    } else {
      NotIn(a, JObj([Pair(path[0].k, inner)]));
    }
  }

  /** An array is only in an array, an object only in an object. */
  lemma NotIn(a: Json, b: Json)
    ensures (b.JArr? && !a.JArr?) || (b.JObj? && !a.JObj?) ==> !SlowIn(a, b)
  {
  }

  lemma ScalarIn(a: Json, leaf: Json)
    requires IsScalar(leaf)
    ensures SlowIn(a, leaf) <==> CompareJson(a, leaf) == 0
  {
  }

  lemma SameRank(a: Json, b: Json)
    requires SlowIn(a, b)
    ensures TypeRank(a) == TypeRank(b)
  {
  }

  lemma OneMember(a: Json, inner: Json)
    requires a.JArr? && forall x :: x in a.items && SlowIn(x, inner) ==> TypeRank(x) == TypeRank(inner)
    ensures SlowIn(a, JArr([inner])) <==> exists x :: x in a.items && SlowIn(x, inner)
  {
    assert inner in [inner] && forall x :: x in [inner] ==> x == inner;
  }

  lemma OneField(a: Json, k: bytes, inner: Json)
    requires a.JObj?
    ensures SlowIn(a, JObj([Pair(k, inner)])) <==> exists p: Pair :: p in a.pairs && p.k == k && SlowIn(p.v, inner)
  {
    assert Pair(k, inner) in [Pair(k, inner)] && forall q: Pair :: q in [Pair(k, inner)] ==> q == Pair(k, inner);
  }

  /** What contains a document leads wherever the document leads. */
  lemma ContainsLeads(a: Json, b: Json, path: seq<Turn>, leaf: Json)
    requires Numeric(a) && Numeric(b) && LeafDoc(leaf) && SlowIn(a, b) && Leads(b, path, leaf)
    ensures Leads(a, path, leaf)
  {
    AlongNumeric(path, leaf);
    PathContained(a, path, leaf);
    PathContained(b, path, leaf);
    SlowTransitive(a, b, Along(path, leaf));
  }

  /** An array contains a scalar exactly if one of its elements is like it; other documents contain
      only scalars like themselves. */
  lemma ContainsScalar(a: Json, b: Json)
    requires Numeric(a) && Numeric(b) && IsScalar(b)
    ensures SlowContains(a, b) <==> if a.JArr? then exists x :: x in a.items && Alike(x, b) else Alike(a, b)
  {
    if a.JArr? {
      forall x | x in a.items ensures Cmp(x, b) == 0 <==> Alike(x, b) { CompareZero(x, b); }
    } else {
      CompareZero(a, b);
      ScalarIn(a, b);
    }
  }

  // ------------------------------------------------- existence

  /** A string exists in a document that is it, in an array that contains it as an element, and in an
      object that has it as a key. */
  lemma ExistsMeans(j: Json, key: bytes)
    requires Numeric(j)
    ensures ExistsIn(j, key) <==> if j.JObj? then exists v :: Pair(key, v) in j.pairs else SlowContains(j, JStr(key))
  {
    if j.JObj? {
      FindIsMember(j.pairs, key);
      if v :| Pair(key, v) in j.pairs { MemberIsFound(j.pairs, key, v); }
    } else {
      ContainsScalar(j, JStr(key));
    }
  }

  lemma {:induction false} MemberIsFound(pairs: seq<Pair>, key: bytes, v: Json)
    requires Pair(key, v) in pairs
    ensures FindKey(pairs, key).Some?
  {
    if pairs[0].k != key { MemberIsFound(pairs[1..], key, v); }
  }
}
