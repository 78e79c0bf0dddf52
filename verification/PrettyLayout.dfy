/** Choosing and writing a layout (pkg/util/pretty/pretty.go:107-292), as functions, and what
    every chosen layout satisfies. */
module PrettyLayout {
  import opened GoInts
  import opened PrettyDocs

  datatype Pos = Pos(tabs: int, spaces: int)

  /** One (indentation, document) pair of the work list. */
  datatype Item = Item(i: Pos, d: Doc)

  /** One cell of a chosen layout; the list of cells is docBest. */
  datatype Tok = TextB(s: string) | KeywordB(s: string) | LineB(i: Pos) | SpacesB(n: int)

  // ------------------------------------------------- choosing

  function Weight(d: Doc): nat {
    match d
    case Cat(a, b) => 1 + Weight(a) + Weight(b)
    case NestS(_, e) => 1 + Weight(e)
    case NestT(e) => 1 + Weight(e)
    case Union(x, y) => 1 + Weight(x) + Weight(y)
    case Align(e) => 3 + Weight(e)
    case AlignAt(_, e) => 2 + Weight(e)
    case ByNesting(_, near, far) => 1 + Weight(near) + Weight(far)
    case _ => 1
  }

  function WeightAll(z: seq<Item>): nat {
    if z == [] then 0 else Weight(z[0].d) + WeightAll(z[1..])
  }

  lemma WeightCons(x: Item, z: seq<Item>)
    ensures WeightAll([x] + z) == Weight(x.d) + WeightAll(z)
  {
    assert ([x] + z)[1..] == z;
  }

  /** One more pair in front of a work list. */
  function Push(x: Item, z: seq<Item>): (r: seq<Item>)
    ensures r == [x] + z && WeightAll(r) == Weight(x.d) + WeightAll(z)
  {
    WeightCons(x, z);
    [x] + z
  }

  function Deeper(i: Pos, tw: int): Pos
    requires tw > 0
  {
    Pos(i.tabs + 1 + Quo(i.spaces, tw), 0)
  }

  function Column(k: Pos, tw: int): int {
    k.tabs * tw + k.spaces
  }

  predicate Fits(w: int, x: seq<Tok>)
    decreases |x|
  {
    if w < 0 then false
    else if x == [] then true
    else
      match x[0]
      case TextB(s) => Fits(w - |s|, x[1..])
      case KeywordB(s) => Fits(w - |s|, x[1..])
      case LineB(_) => true
      case SpacesB(n) => Fits(w - n, x[1..])
  }

  /** The work list after one step that writes nothing: the documents that stand for others. */
  function Rewrite(tw: int, k: Pos, x: Item): (r: Rewritten)
    requires tw > 0
    ensures r.One? ==> Weight(r.x.d) < Weight(x.d)
    ensures r.Two? ==> Weight(r.x.d) + Weight(r.y.d) < Weight(x.d)
  {
    match x.d
    case Nil => Zero
    case Cat(a, b) => Two(Item(x.i, a), Item(x.i, b))
    case NestS(n, e) => One(Item(Pos(x.i.tabs, x.i.spaces + n), e))
    case NestT(e) => One(Item(Deeper(x.i, tw), e))
    case Align(e) => One(Item(x.i, AlignAt(k.spaces, e)))
    case AlignAt(c, e) => One(Item(x.i, NestS(c - x.i.spaces, e)))
    case ByNesting(limit, near, far) => One(Item(x.i, if x.i.spaces < limit then near else far))
    case _ => Leaf
  }

  datatype Rewritten = Zero | One(x: Item) | Two(x: Item, y: Item) | Leaf

  /** The one cell a leaf document writes. */
  function LeafTok(x: Item): Tok {
    match x.d
    case Text(s) => TextB(s)
    case Keyword(s) => KeywordB(s)
    case Pad(n) => SpacesB(n)
    case _ => LineB(x.i)
  }

  /** The tracked position after one cell. */
  function Step(k: Pos, t: Tok): Pos {
    match t
    case TextB(s) => Pos(k.tabs, k.spaces + |s|)
    case KeywordB(s) => Pos(k.tabs, k.spaces + |s|)
    case LineB(i) => i
    case SpacesB(n) => Pos(k.tabs, k.spaces + n)
  }

  /** be without the memo table: the layout of the work list at column k. */
  function Be(w: int, tw: int, k: Pos, z: seq<Item>): seq<Tok>
    requires tw > 0
    decreases WeightAll(z)
  {
    if z == [] then []
    else
      var x, rest := z[0], z[1..];
      match Rewrite(tw, k, x)
      case Zero => Be(w, tw, k, rest)
      case One(y) => Be(w, tw, k, Push(y, rest))
      case Two(y, y') => Be(w, tw, k, Push(y, Push(y', rest)))
      case Leaf =>
        if x.d.Union? then
          var kept := Be(w, tw, k, Push(Item(x.i, x.d.x), rest));
          if Fits(w - k.spaces - k.tabs * tw, kept) then kept else Be(w, tw, k, Push(Item(x.i, x.d.y), rest))
        else [LeafTok(x)] + Be(w, tw, Step(k, LeafTok(x)), rest)
  }

  function Best(w: int, tw: int, d: Doc): seq<Tok>
    requires tw > 0
  {
    Be(w, tw, Pos(0, 0), [Item(Pos(0, 0), d)])
  }

  // ------------------------------------------------- writing

  function Repeat(c: char, n: int): (s: string)
    ensures |s| == if n < 0 then 0 else n
    ensures forall i :: 0 <= i < |s| ==> s[i] == c
  {
    if n <= 0 then "" else Repeat(c, n - 1) + [c]
  }

  function WrittenTok(useTabs: bool, tw: int, t: Tok): string {
    match t
    case TextB(s) => s
    case KeywordB(s) => s
    case LineB(i) =>
      "\n" + (if useTabs then Repeat('\t', i.tabs) + Repeat(' ', i.spaces) else Repeat(' ', i.tabs * tw + i.spaces))
    case SpacesB(n) => Repeat(' ', n)
  }

  function Written(useTabs: bool, tw: int, ts: seq<Tok>): string {
    if ts == [] then "" else WrittenTok(useTabs, tw, ts[0]) + Written(useTabs, tw, ts[1..])
  }

  // ------------------------------------------------- what a document may look like

  /** The tracked position after the cells ts. */
  function After(k: Pos, ts: seq<Tok>): Pos
    decreases |ts|
  {
    if ts == [] then k else After(Step(k, ts[0]), ts[1..])
  }

  lemma {:induction false} AfterConcat(k: Pos, a: seq<Tok>, b: seq<Tok>)
    ensures After(k, a + b) == After(After(k, a), b)
    decreases |a|
  {
    if a == [] {
      assert a + b == b;
    } else {
      assert (a + b)[1..] == a[1..] + b;
      AfterConcat(Step(k, a[0]), a[1..], b);
    }
  }

  /** out is one of the layouts of d when d starts at position k with indentation i. */
  ghost predicate Renders(tw: int, d: Doc, i: Pos, k: Pos, out: seq<Tok>)
    requires tw > 0
  {
    match d
    case Nil => out == []
    case Text(s) => out == [TextB(s)]
    case Keyword(s) => out == [KeywordB(s)]
    case Line => out == [LineB(i)]
    case SoftBreak => out == [LineB(i)]
    case Pad(n) => out == [SpacesB(n)]
    case Cat(a, b) =>
      exists m | 0 <= m <= |out| :: Renders(tw, a, i, k, out[..m]) && Renders(tw, b, i, After(k, out[..m]), out[m..])
    case NestS(n, e) => Renders(tw, e, Pos(i.tabs, i.spaces + n), k, out)
    case NestT(e) => Renders(tw, e, Deeper(i, tw), k, out)
    case Union(x, y) => Renders(tw, x, i, k, out) || Renders(tw, y, i, k, out)
    case Align(e) => Renders(tw, e, Pos(i.tabs, k.spaces), k, out)
    case AlignAt(c, e) => Renders(tw, e, Pos(i.tabs, c), k, out)
    case ByNesting(limit, near, far) => Renders(tw, if i.spaces < limit then near else far, i, k, out)
  }

  ghost predicate RendersAll(tw: int, z: seq<Item>, k: Pos, out: seq<Tok>)
    requires tw > 0
  {
    if z == [] then out == []
    else exists m | 0 <= m <= |out| :: Renders(tw, z[0].d, z[0].i, k, out[..m]) && RendersAll(tw, z[1..], After(k, out[..m]), out[m..])
  }

  lemma RendersCons(tw: int, x: Item, rest: seq<Item>, k: Pos, out: seq<Tok>, m: nat)
    requires tw > 0 && m <= |out|
    requires Renders(tw, x.d, x.i, k, out[..m]) && RendersAll(tw, rest, After(k, out[..m]), out[m..])
    ensures RendersAll(tw, [x] + rest, k, out)
  {
    assert ([x] + rest)[1..] == rest;
  }

  lemma RendersSplit(tw: int, x: Item, rest: seq<Item>, k: Pos, out: seq<Tok>) returns (m: nat)
    requires tw > 0 && RendersAll(tw, [x] + rest, k, out)
    ensures m <= |out| && Renders(tw, x.d, x.i, k, out[..m]) && RendersAll(tw, rest, After(k, out[..m]), out[m..])
  {
    assert ([x] + rest)[1..] == rest;
    m :| 0 <= m <= |out| && Renders(tw, x.d, x.i, k, out[..m]) && RendersAll(tw, rest, After(k, out[..m]), out[m..]);
  }

  /** A document that stands for another has exactly its layouts. */
  lemma RewriteOne(tw: int, k: Pos, x: Item, out: seq<Tok>)
    requires tw > 0 && Rewrite(tw, k, x).One?
    ensures var y := Rewrite(tw, k, x).x; Renders(tw, y.d, y.i, k, out) ==> Renders(tw, x.d, x.i, k, out)
  {
    match x.d
    case AlignAt(c, e) => assert x.i.spaces + (c - x.i.spaces) == c;
    case _ =>
  }

  lemma Rejoin<T>(a: seq<T>, b: seq<T>)
    ensures (a + b)[..|a|] == a && (a + b)[|a|..] == b
  {
  }

  lemma ThreeParts<T>(out: seq<T>, m: nat, n: nat)
    requires m <= |out| && n <= |out| - m
    ensures out == (out[..m] + out[m..][..n]) + out[m..][n..]
  {
  }

  lemma CatRenders(tw: int, d: Doc, i: Pos, k: Pos, a: seq<Tok>, b: seq<Tok>)
    requires tw > 0 && d.Cat? && Renders(tw, d.a, i, k, a) && Renders(tw, d.b, i, After(k, a), b)
    ensures Renders(tw, d, i, k, a + b)
  {
    Rejoin(a, b);
  }

  lemma RendersJoin(tw: int, x: Item, rest: seq<Item>, k: Pos, a: seq<Tok>, b: seq<Tok>)
    requires tw > 0 && Renders(tw, x.d, x.i, k, a) && RendersAll(tw, rest, After(k, a), b)
    ensures RendersAll(tw, [x] + rest, k, a + b)
  {
    hide Renders, RendersAll, After;
    Rejoin(a, b);
    RendersCons(tw, x, rest, k, a + b, |a|);
  }

  lemma RewriteTwo(tw: int, k: Pos, x: Item, rest: seq<Item>, out: seq<Tok>)
    requires tw > 0 && x.d.Cat? && RendersAll(tw, [Item(x.i, x.d.a)] + ([Item(x.i, x.d.b)] + rest), k, out)
    ensures RendersAll(tw, [x] + rest, k, out)
  {
    hide Renders, RendersAll, After;
    var m := RendersSplit(tw, Item(x.i, x.d.a), [Item(x.i, x.d.b)] + rest, k, out);
    var a := out[..m];
    var n := RendersSplit(tw, Item(x.i, x.d.b), rest, After(k, a), out[m..]);
    var b, c := out[m..][..n], out[m..][n..];
    AfterConcat(k, a, b);
    CatRenders(tw, x.d, x.i, k, a, b);
    RendersJoin(tw, x, rest, k, a + b, c);
    ThreeParts(out, m, n);
  }

  lemma LeafCons(tw: int, x: Item, rest: seq<Item>, k: Pos, t: Tok, tail: seq<Tok>)
    requires tw > 0 && Renders(tw, x.d, x.i, k, [t]) && RendersAll(tw, rest, Step(k, t), tail)
    ensures RendersAll(tw, [x] + rest, k, [t] + tail)
  {
    assert ([t] + tail)[..1] == [t] && ([t] + tail)[1..] == tail;
    assert After(k, [t]) == Step(k, t) by { assert [t][1..] == []; }
    RendersCons(tw, x, rest, k, [t] + tail, 1);
  }

  lemma UnionCons(tw: int, x: Item, rest: seq<Item>, k: Pos, out: seq<Tok>)
    requires tw > 0 && x.d.Union?
    requires RendersAll(tw, [Item(x.i, x.d.x)] + rest, k, out) || RendersAll(tw, [Item(x.i, x.d.y)] + rest, k, out)
    ensures RendersAll(tw, [x] + rest, k, out)
  {
    if RendersAll(tw, [Item(x.i, x.d.x)] + rest, k, out) {
      var m := RendersSplit(tw, Item(x.i, x.d.x), rest, k, out);
      RendersCons(tw, x, rest, k, out, m);
    } else {
      var m := RendersSplit(tw, Item(x.i, x.d.y), rest, k, out);
      RendersCons(tw, x, rest, k, out, m);
    }
  }

  /** The chosen layout is one of the layouts of the work list. */
  lemma {:induction false} BeRenders(w: int, tw: int, k: Pos, z: seq<Item>)
    requires tw > 0
    ensures RendersAll(tw, z, k, Be(w, tw, k, z))
    decreases WeightAll(z)
  {
    hide RendersAll, Renders;
    if z == [] {
      RendersNothing(tw, k);
    } else {
      var x, rest := z[0], z[1..];
      assert z == [x] + rest;
      WeightCons(x, rest);
      match Rewrite(tw, k, x)
      case Zero => BeRenders(w, tw, k, rest); NilCons(tw, x, rest, k, Be(w, tw, k, rest));
      case One(y) =>
        WeightCons(y, rest);
        BeRenders(w, tw, k, [y] + rest);
        var out := Be(w, tw, k, [y] + rest);
        var m := RendersSplit(tw, y, rest, k, out);
        RewriteOne(tw, k, x, out[..m]);
        RendersCons(tw, x, rest, k, out, m);
      case Two(y, y') =>
        WeightCons(y', rest);
        WeightCons(y, [y'] + rest);
        BeRenders(w, tw, k, [y] + ([y'] + rest));
        RewriteTwo(tw, k, x, rest, Be(w, tw, k, [y] + ([y'] + rest)));
      case Leaf =>
        if x.d.Union? {
          WeightCons(Item(x.i, x.d.x), rest);
          WeightCons(Item(x.i, x.d.y), rest);
          BeRenders(w, tw, k, [Item(x.i, x.d.x)] + rest);
          BeRenders(w, tw, k, [Item(x.i, x.d.y)] + rest);
          UnionCons(tw, x, rest, k, Be(w, tw, k, z));
        } else {
          var t := LeafTok(x);
          LeafRenders(tw, x, k);
          BeRenders(w, tw, Step(k, t), rest);
          LeafCons(tw, x, rest, k, t, Be(w, tw, Step(k, t), rest));
        }
    }
  }

  lemma RendersNothing(tw: int, k: Pos)
    requires tw > 0
    ensures RendersAll(tw, [], k, [])
  {
  }

  lemma NilCons(tw: int, x: Item, rest: seq<Item>, k: Pos, out: seq<Tok>)
    requires tw > 0 && x.d.Nil? && RendersAll(tw, rest, k, out)
    ensures RendersAll(tw, [x] + rest, k, out)
  {
    assert out[..0] == [] && out[0..] == out;
    RendersCons(tw, x, rest, k, out, 0);
  }

  lemma LeafRenders(tw: int, x: Item, k: Pos)
    requires tw > 0 && Rewrite(tw, k, x).Leaf? && !x.d.Union?
    ensures Renders(tw, x.d, x.i, k, [LeafTok(x)])
  {
  }

  /** Pretty writes one of the layouts of its document. */
  lemma BestRenders(w: int, tw: int, d: Doc)
    requires tw > 0
    ensures Renders(tw, d, Pos(0, 0), Pos(0, 0), Best(w, tw, d))
  {
    var out := Best(w, tw, d);
    BeRenders(w, tw, Pos(0, 0), [Item(Pos(0, 0), d)]);
    assert [Item(Pos(0, 0), d)] == [Item(Pos(0, 0), d)] + [];
    var m := RendersSplit(tw, Item(Pos(0, 0), d), [], Pos(0, 0), out);
    assert out[m..] == [] && out[..m] == out;
  }
}
