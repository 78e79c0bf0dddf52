/** Byte strings and their lexicographic order, as bytes.Compare orders keys. */
module ByteStrings {

  newtype byte = x: int | 0 <= x < 256
  type bytes = seq<byte>

  /** bytes.Compare: the first differing byte decides; a proper prefix comes first. */
  function CompareBytes(a: bytes, b: bytes): (r: int)
    ensures r == 0 <==> a == b
  {
    if a == [] then (if b == [] then 0 else -1)
    else if b == [] then 1
    else if a[0] != b[0] then (if a[0] < b[0] then -1 else 1)
    else
      assert a == [a[0]] + a[1..] && b == [b[0]] + b[1..];
      CompareBytes(a[1..], b[1..])
  }

  /** a and b differ at some byte both have, and a is smaller there. Unlike plain
      lexicographic order this survives appending anything to either side. */
  ghost predicate Before(a: bytes, b: bytes)
  {
    a != [] && b != [] && (a[0] < b[0] || (a[0] == b[0] && Before(a[1..], b[1..])))
  }

  lemma {:induction false} BeforeExtends(a: bytes, b: bytes, x: bytes, y: bytes)
    requires Before(a, b)
    ensures Before(a + x, b + y)
  {
    assert (a + x)[0] == a[0] && (b + y)[0] == b[0];
    if a[0] == b[0] {
      BeforeExtends(a[1..], b[1..], x, y);
      assert (a + x)[1..] == a[1..] + x && (b + y)[1..] == b[1..] + y;
    }
  }

  lemma {:induction false} BeforeUnderPrefix(p: bytes, a: bytes, b: bytes)
    ensures Before(p + a, p + b) <==> Before(a, b)
  {
    if p == [] {
      assert p + a == a && p + b == b;
    } else {
      BeforeUnderPrefix(p[1..], a, b);
      assert (p + a)[1..] == p[1..] + a && (p + b)[1..] == p[1..] + b;
    }
  }

  lemma {:induction false} BeforeCompares(a: bytes, b: bytes)
    requires Before(a, b)
    ensures CompareBytes(a, b) == -1 && CompareBytes(b, a) == 1 && !Before(b, a) && a != b
  {
    if a[0] == b[0] { BeforeCompares(a[1..], b[1..]); }
  }

  /** Strings related by Before are not prefixes of each other. */
  lemma {:induction false} BeforeNotPrefix(a: bytes, b: bytes)
    requires Before(a, b)
    ensures !(a <= b) && !(b <= a)
  {
    assert a <= b ==> a[1..] <= b[1..];
    assert b <= a ==> b[1..] <= a[1..];
    if a[0] == b[0] { BeforeNotPrefix(a[1..], b[1..]); }
  }

  /** The ones complement of every byte. */
  function Complement(a: bytes): (r: bytes)
    ensures |r| == |a| && forall i :: 0 <= i < |a| ==> r[i] == 255 - a[i]
  {
    seq(|a|, i requires 0 <= i < |a| => 255 - a[i])
  }

  lemma {:induction false} ComplementReverses(a: bytes, b: bytes)
    ensures Before(Complement(a), Complement(b)) <==> Before(b, a)
  {
    if a != [] && b != [] && a[0] == b[0] {
      ComplementReverses(a[1..], b[1..]);
      assert Complement(a)[1..] == Complement(a[1..]);
      assert Complement(b)[1..] == Complement(b[1..]);
    }
  }

  lemma ComplementTwice(a: bytes)
    ensures Complement(Complement(a)) == a
  {
  }

  lemma ComplementConcat(a: bytes, b: bytes)
    ensures Complement(a + b) == Complement(a) + Complement(b)
  {
  }

  /** onesComplement (pkg/util/encoding/complement_safe.go): in place. */
  method OnesComplement(a: array<byte>, from: nat)
    requires from <= a.Length
    modifies a
    ensures a[..] == old(a[..from]) + Complement(old(a[from..]))
  {
    for i := from to a.Length
      invariant forall k :: 0 <= k < from || i <= k < a.Length ==> a[k] == old(a[k])
      invariant forall k :: from <= k < i ==> a[k] == 255 - old(a[k])
    {
      a[i] := 255 - a[i];
    }
  }

  /** bytes.IndexByte, with |b| standing for "absent". */
  function IndexByte(b: bytes, c: byte): (i: nat)
    ensures i <= |b|
    ensures forall k :: 0 <= k < i ==> b[k] != c
    ensures i < |b| ==> b[i] == c
  {
    if b == [] then 0 else if b[0] == c then 0 else
      var i := IndexByte(b[1..], c);
      assert forall k :: 0 < k <= i ==> b[k] == b[1..][k - 1];
      1 + i
  }

  lemma IndexByteIs(b: bytes, c: byte, i: nat)
    requires i < |b| && b[i] == c && c !in b[..i]
    ensures IndexByte(b, c) == i
  {
    var j := IndexByte(b, c);
    assert forall k :: 0 <= k < i ==> b[k] == b[..i][k];
  }
}
