/** The layout chooser as it runs: hash-consed work lists, a memo table, and a string builder. */
module PrettyExec {
  import opened GoInts
  import opened PrettyDocs
  import L = PrettyLayout
  import P = PrettyProperties

  /** The address of an interned work-list cell, or nil. */
  datatype Ref = Null | At(id: nat)

  /** The struct iDoc. */
  datatype IDoc = IDoc(i: L.Pos, d: Doc, next: Ref)

  predicate Before(r: Ref, n: nat) {
    r.At? ==> r.id < n
  }

  /** Cells point only to cells allocated earlier. */
  predicate Chained(cells: seq<IDoc>) {
    forall n :: 0 <= n < |cells| ==> Before(cells[n].next, n)
  }

  /** The work list an address stands for. */
  function ListOf(cells: seq<IDoc>, r: Ref): seq<L.Item>
    requires Chained(cells) && Before(r, |cells|)
    decreases if r.At? then r.id + 1 else 0
  {
    if r.Null? then [] else [L.Item(cells[r.id].i, cells[r.id].d)] + ListOf(cells, cells[r.id].next)
  }

  lemma {:induction false} ListGrows(cells: seq<IDoc>, more: seq<IDoc>, r: Ref)
    requires Chained(cells) && Chained(more) && cells <= more && Before(r, |cells|)
    ensures ListOf(more, r) == ListOf(cells, r)
    decreases if r.At? then r.id + 1 else 0
  {
    if r.At? { ListGrows(cells, more, cells[r.id].next); }
  }

  /** Every cell is in the intern table under its own address, and nothing else is. */
  predicate Interned(cells: seq<IDoc>, table: map<IDoc, nat>) {
    && (forall n :: 0 <= n < |cells| ==> cells[n] in table && table[cells[n]] == n)
    && (forall c :: c in table ==> table[c] < |cells| && cells[table[c]] == c)
  }

  /** Comparing addresses compares work lists. */
  lemma {:induction false} AddressesAreLists(cells: seq<IDoc>, table: map<IDoc, nat>, r: Ref, s: Ref)
    requires Chained(cells) && Interned(cells, table) && Before(r, |cells|) && Before(s, |cells|)
    ensures r == s <==> ListOf(cells, r) == ListOf(cells, s)
    decreases if r.At? then r.id + 1 else 0
  {
    if r.At? && s.At? && ListOf(cells, r) == ListOf(cells, s) {
      var x, y := cells[r.id], cells[s.id];
      assert ListOf(cells, r)[0] == ListOf(cells, s)[0];
      assert ListOf(cells, r)[1..] == ListOf(cells, x.next) && ListOf(cells, s)[1..] == ListOf(cells, y.next);
      AddressesAreLists(cells, table, x.next, y.next);
      assert x == y;
    }
  }

  datatype BeArgs = BeArgs(d: nat, k: L.Pos)

  /** The memo table holds only what be would compute again. */
  ghost predicate Remembers(w: int, tw: int, cells: seq<IDoc>, memo: map<BeArgs, seq<L.Tok>>)
    requires tw > 0 && Chained(cells)
  {
    forall a :: a in memo ==> a.d < |cells| && memo[a] == L.Be(w, tw, a.k, ListOf(cells, At(a.d)))
  }

  class BeExec {
    const w: int
    const tabWidth: int
    var cells: seq<IDoc>
    var memoiDoc: map<IDoc, nat>
    var memoBe: map<BeArgs, seq<L.Tok>>

    ghost predicate Valid()
      reads this
    {
      && tabWidth > 0 && Chained(cells) && Interned(cells, memoiDoc)
      && Remembers(w, tabWidth, cells, memoBe)
    }

    constructor (w: int, tabWidth: int)
      requires tabWidth > 0
      ensures Valid() && this.w == w && this.tabWidth == tabWidth
    {
      this.w, this.tabWidth := w, tabWidth;
      cells, memoiDoc, memoBe := [], map[], map[];
    }

    /** iDoc: the one address of a cell, allocated on first use. */
    method Intern(i: L.Pos, d: Doc, z: Ref) returns (r: Ref)
      requires Valid() && Before(z, |cells|)
      modifies this`cells, this`memoiDoc
      ensures Valid() && old(cells) <= cells && Before(r, |cells|) && r.At?
      ensures ListOf(cells, r) == [L.Item(i, d)] + ListOf(old(cells), z)
    {
      hide L.Be;
      var idoc := IDoc(i, d, z);
      if idoc in memoiDoc {
        return At(memoiDoc[idoc]);
      }
      ghost var was := cells;
      cells := cells + [idoc];
      memoiDoc := memoiDoc[idoc := |cells| - 1];
      r := At(|cells| - 1);
      ListGrows(was, cells, z);
      forall a | a in memoBe ensures ListOf(cells, At(a.d)) == ListOf(was, At(a.d)) { ListGrows(was, cells, At(a.d)); }
    }

    /** be, with its memo table. */
    method Be(k: L.Pos, xlist: Ref) returns (res: seq<L.Tok>)
      requires Valid() && Before(xlist, |cells|)
      modifies this
      ensures Valid() && old(cells) <= cells
      ensures res == L.Be(w, tabWidth, k, ListOf(old(cells), xlist))
      decreases L.WeightAll(ListOf(cells, xlist)), 1
    {
      hide L.Be, L.WeightAll, Interned;
      if xlist == Null {
        BeNothing(w, tabWidth, k);
        return [];
      }
      var memoKey := BeArgs(xlist.id, k);
      if memoKey in memoBe {
        return memoBe[memoKey];
      }
      ghost var was := cells;
      res := Choose(k, cells[xlist.id]);
      ListGrows(was, cells, xlist);
      memoBe := memoBe[memoKey := res];
    }

    /** be on the interned cell (i, d, z). */
    method BeAt(k: L.Pos, i: L.Pos, d: Doc, z: Ref) returns (res: seq<L.Tok>)
      requires Valid() && Before(z, |cells|)
      modifies this
      ensures Valid() && old(cells) <= cells
      ensures res == L.Be(w, tabWidth, k, [L.Item(i, d)] + ListOf(old(cells), z))
      decreases L.WeightAll([L.Item(i, d)] + ListOf(cells, z)), 2
    {
      hide L.Be, L.WeightAll, Interned, Remembers;
      var inner := Intern(i, d, z);
      res := Be(k, inner);
    }

    /** The general case of be: by the kind of the first document. */
    method Choose(k: L.Pos, d: IDoc) returns (res: seq<L.Tok>)
      requires Valid() && Before(d.next, |cells|)
      modifies this
      ensures Valid() && old(cells) <= cells
      ensures res == L.Be(w, tabWidth, k, [L.Item(d.i, d.d)] + ListOf(old(cells), d.next))
      decreases L.WeightAll([L.Item(d.i, d.d)] + ListOf(cells, d.next)), 0
    {
      hide L.Be, L.WeightAll, L.Fits, Interned, Remembers, Chained;
      var z := d.next;
      ghost var was := cells;
      BeUnfold(w, tabWidth, k, L.Item(d.i, d.d), ListOf(was, z));
      StepsDown(tabWidth, k, L.Item(d.i, d.d), ListOf(was, z));
      match d.d {
        case Nil => res := Be(k, z);
        case Cat(a, b) =>
          var second := Intern(d.i, b, z);
          res := BeAt(k, d.i, a, second);
        case NestS(n, e) => res := BeAt(k, L.Pos(d.i.tabs, d.i.spaces + n), e, z);
        case NestT(e) => res := BeAt(k, L.Pos(d.i.tabs + 1 + Quo(d.i.spaces, tabWidth), 0), e, z);
        case Text(s) =>
          res := Be(L.Pos(k.tabs, k.spaces + |s|), z);
          res := [L.TextB(s)] + res;
        case Keyword(s) =>
          res := Be(L.Pos(k.tabs, k.spaces + |s|), z);
          res := [L.KeywordB(s)] + res;
        case Line =>
          res := Be(d.i, z);
          res := [L.LineB(d.i)] + res;
        case SoftBreak =>
          res := Be(d.i, z);
          res := [L.LineB(d.i)] + res;
        case Union(a, b) =>
          res := BeAt(k, d.i, a, z);
          var fits := Fits(w - k.spaces - k.tabs * tabWidth, res);
          if !fits {
            ListGrows(was, cells, z);
            res := BeAt(k, d.i, b, z);
          }
        case Align(e) => res := BeAt(k, d.i, AlignAt(k.spaces, e), z);
        case AlignAt(c, e) => res := BeAt(k, d.i, NestS(c - d.i.spaces, e), z);
        case ByNesting(limit, near, far) => res := BeAt(k, d.i, if d.i.spaces < limit then near else far, z);
        case Pad(n) =>
          res := Be(L.Pos(k.tabs, k.spaces + n), z);
          res := [L.SpacesB(n)] + res;
      }
    }

    /** layout: write the chosen cells. */
    method Layout(useTabs: bool, d: seq<L.Tok>) returns (sb: string)
      ensures sb == L.Written(useTabs, tabWidth, d)
    {
      sb := "";
      for n := 0 to |d|
        invariant L.Written(useTabs, tabWidth, d) == sb + L.Written(useTabs, tabWidth, d[n..])
      {
        assert d[n..][1..] == d[n + 1..];
        var cell := WriteCell(useTabs, d[n]);
        sb := sb + cell;
      }
    }

    method WriteCell(useTabs: bool, t: L.Tok) returns (s: string)
      ensures s == L.WrittenTok(useTabs, tabWidth, t)
    {
      match t {
        case TextB(text) => s := text;
        case KeywordB(text) => s := text;
        case LineB(i) =>
          var padTabs := i.tabs * tabWidth;
          var tabs := "";
          if useTabs {
            tabs := Fill('\t', i.tabs);
            padTabs := 0;
          }
          var spaces := Fill(' ', padTabs + i.spaces);
          s := "\n" + (tabs + spaces);
        case SpacesB(n) => s := Fill(' ', n);
      }
    }
  }

  lemma BeNothing(w: int, tw: int, k: L.Pos)
    requires tw > 0
    ensures L.Be(w, tw, k, []) == []
  {
  }

  /** One step of be, by the kind of the first document. */
  lemma BeUnfold(w: int, tw: int, k: L.Pos, x: L.Item, rest: seq<L.Item>)
    requires tw > 0
    ensures L.Be(w, tw, k, [x] + rest) ==
      match x.d
      case Nil => L.Be(w, tw, k, rest)
      case Cat(a, b) => L.Be(w, tw, k, [L.Item(x.i, a)] + ([L.Item(x.i, b)] + rest))
      case NestS(n, e) => L.Be(w, tw, k, [L.Item(L.Pos(x.i.tabs, x.i.spaces + n), e)] + rest)
      case NestT(e) => L.Be(w, tw, k, [L.Item(L.Pos(x.i.tabs + 1 + Quo(x.i.spaces, tw), 0), e)] + rest)
      case Text(s) => [L.TextB(s)] + L.Be(w, tw, L.Pos(k.tabs, k.spaces + |s|), rest)
      case Keyword(s) => [L.KeywordB(s)] + L.Be(w, tw, L.Pos(k.tabs, k.spaces + |s|), rest)
      case Line => [L.LineB(x.i)] + L.Be(w, tw, x.i, rest)
      case SoftBreak => [L.LineB(x.i)] + L.Be(w, tw, x.i, rest)
      case Union(a, b) =>
        var kept := L.Be(w, tw, k, [L.Item(x.i, a)] + rest);
        if L.Fits(w - k.spaces - k.tabs * tw, kept) then kept else L.Be(w, tw, k, [L.Item(x.i, b)] + rest)
      case Align(e) => L.Be(w, tw, k, [L.Item(x.i, AlignAt(k.spaces, e))] + rest)
      case AlignAt(c, e) => L.Be(w, tw, k, [L.Item(x.i, NestS(c - x.i.spaces, e))] + rest)
      case ByNesting(limit, near, far) => L.Be(w, tw, k, [L.Item(x.i, if x.i.spaces < limit then near else far)] + rest)
      case Pad(n) => [L.SpacesB(n)] + L.Be(w, tw, L.Pos(k.tabs, k.spaces + n), rest)
  {
    hide L.Be, L.Fits, L.Weight, L.WeightAll;
    BeRewrites(w, tw, k, x, rest);
  }

  lemma BeRewrites(w: int, tw: int, k: L.Pos, x: L.Item, rest: seq<L.Item>)
    requires tw > 0
    ensures var r, out := L.Rewrite(tw, k, x), L.Be(w, tw, k, [x] + rest);
      && (r.Zero? ==> out == L.Be(w, tw, k, rest))
      && (r.One? ==> out == L.Be(w, tw, k, [r.x] + rest))
      && (r.Two? ==> out == L.Be(w, tw, k, [r.x] + ([r.y] + rest)))
      && (r.Leaf? && !x.d.Union? ==> out == [L.LeafTok(x)] + L.Be(w, tw, L.Step(k, L.LeafTok(x)), rest))
      && (r.Leaf? && x.d.Union? ==>
            var kept := L.Be(w, tw, k, [L.Item(x.i, x.d.x)] + rest);
            out == if L.Fits(w - k.spaces - k.tabs * tw, kept) then kept else L.Be(w, tw, k, [L.Item(x.i, x.d.y)] + rest))
  {
    hide L.Rewrite, L.Fits, L.LeafTok, L.Step;
    assert ([x] + rest)[1..] == rest;
  }

  /** Every recursive call of be is on a lighter work list. */
  lemma StepsDown(tw: int, k: L.Pos, x: L.Item, rest: seq<L.Item>)
    requires tw > 0
    ensures L.WeightAll(rest) < L.WeightAll([x] + rest)
    ensures forall i, d: Doc :: L.Weight(d) < L.Weight(x.d) ==> L.WeightAll([L.Item(i, d)] + rest) < L.WeightAll([x] + rest)
    ensures x.d.Cat? ==> L.WeightAll([L.Item(x.i, x.d.a)] + ([L.Item(x.i, x.d.b)] + rest)) < L.WeightAll([x] + rest)
  {
    L.WeightCons(x, rest);
    forall i, d: Doc ensures L.WeightAll([L.Item(i, d)] + rest) == L.Weight(d) + L.WeightAll(rest) {
      L.WeightCons(L.Item(i, d), rest);
    }
    if x.d.Cat? {
      L.WeightCons(L.Item(x.i, x.d.b), rest);
      L.WeightCons(L.Item(x.i, x.d.a), [L.Item(x.i, x.d.b)] + rest);
    }
  }

  method Fill(c: char, n: int) returns (s: string)
    ensures s == L.Repeat(c, n)
  {
    s := "";
    var i := 0;
    while i < n
      invariant 0 <= i && (i <= n || i == 0) && s == L.Repeat(c, i)
    {
      s := s + [c];
      i := i + 1;
    }
  }

  /** fits. */
  method Fits(w: int, x: seq<L.Tok>) returns (r: bool)
    ensures r == L.Fits(w, x)
    decreases |x|
  {
    if w < 0 {
      return false;
    }
    if x == [] {
      return true;
    }
    match x[0] {
      case TextB(s) => r := Fits(w - |s|, x[1..]);
      case KeywordB(s) => r := Fits(w - |s|, x[1..]);
      case LineB(_) => r := true;
      case SpacesB(n) => r := Fits(w - n, x[1..]);
    }
  }

  /** Pretty. */
  method Pretty(d: Doc, n: int, useTabs: bool, tabWidth: int) returns (s: string)
    requires tabWidth > 0
    ensures s == P.Pretty(d, n, useTabs, tabWidth)
  {
    var b := new BeExec(n, tabWidth);
    var start := b.Intern(L.Pos(0, 0), d, Null);
    assert ListOf(b.cells, start) == [L.Item(L.Pos(0, 0), d)];
    var ldoc := b.Be(L.Pos(0, 0), start);
    s := b.Layout(useTabs, ldoc);
  }
}
