/** What Pretty promises: nothing but blanks is added or lost, a group that fits is one line,
    tracked columns are the real ones, and kept choices fit the width. */
module PrettyProperties {
  import opened PrettyDocs
  import opened PrettyLayout

  /** Pretty without a keyword transform. */
  function Pretty(d: Doc, w: int, useTabs: bool, tw: int): string
    requires tw > 0
  {
    Written(useTabs, tw, Best(w, tw, d))
  }

  lemma {:induction false} WrittenConcat(useTabs: bool, tw: int, a: seq<Tok>, b: seq<Tok>)
    ensures Written(useTabs, tw, a + b) == Written(useTabs, tw, a) + Written(useTabs, tw, b)
  {
    if a == [] {
      assert a + b == b;
    } else {
      assert (a + b)[1..] == a[1..] + b;
      WrittenConcat(useTabs, tw, a[1..], b);
    }
  }

  lemma WrittenOne(useTabs: bool, tw: int, t: Tok)
    ensures Written(useTabs, tw, [t]) == WrittenTok(useTabs, tw, t)
  {
    assert [t][1..] == [];
  }

  lemma WrittenSplit(useTabs: bool, tw: int, out: seq<Tok>, m: nat)
    requires m <= |out|
    ensures Written(useTabs, tw, out) == Written(useTabs, tw, out[..m]) + Written(useTabs, tw, out[m..])
  {
    assert out == out[..m] + out[m..];
    WrittenConcat(useTabs, tw, out[..m], out[m..]);
  }

  // ------------------------------------------------- text is kept

  lemma {:induction false} BlankRun(c: char, n: int)
    requires Blank(c)
    ensures NonBlank(Repeat(c, n)) == ""
  {
    if n > 0 {
      BlankRun(c, n - 1);
      NonBlankConcat(Repeat(c, n - 1), [c]);
      assert [c][1..] == "";
    }
  }

  lemma BlankLine(useTabs: bool, tw: int, i: Pos)
    ensures NonBlank(WrittenTok(useTabs, tw, LineB(i))) == ""
  {
    BlankRun('\t', i.tabs);
    BlankRun(' ', i.spaces);
    BlankRun(' ', i.tabs * tw + i.spaces);
    NonBlankConcat(Repeat('\t', i.tabs), Repeat(' ', i.spaces));
    var indent := if useTabs then Repeat('\t', i.tabs) + Repeat(' ', i.spaces) else Repeat(' ', i.tabs * tw + i.spaces);
    NonBlankConcat("\n", indent);
    assert "\n"[1..] == "";
  }

  /** Every layout of a coherent document has the document's text, up to blanks. */
  lemma {:induction false} LayoutKeepsText(useTabs: bool, tw: int, d: Doc, i: Pos, k: Pos, out: seq<Tok>)
    requires tw > 0 && Coherent(d) && Renders(tw, d, i, k, out)
    ensures NonBlank(Written(useTabs, tw, out)) == NonBlank(FlatText(d))
    decreases d
  {
    hide NonBlank, Written, WrittenTok;
    match d
    case Nil => NothingWritten(useTabs, tw);
    case Text(s) => WrittenText(useTabs, tw, TextB(s));
    case Keyword(s) => WrittenText(useTabs, tw, KeywordB(s));
    case Line => WrittenOne(useTabs, tw, LineB(i)); BlankLine(useTabs, tw, i); SpaceIsBlank();
    case SoftBreak => WrittenOne(useTabs, tw, LineB(i)); BlankLine(useTabs, tw, i); SpaceIsBlank();
    case Pad(n) => WrittenPad(useTabs, tw, n); BlankRun(' ', n); SpaceIsBlank();
    case Cat(a, b) =>
      var m :| 0 <= m <= |out| && Renders(tw, a, i, k, out[..m]) && Renders(tw, b, i, After(k, out[..m]), out[m..]);
      LayoutKeepsText(useTabs, tw, a, i, k, out[..m]);
      LayoutKeepsText(useTabs, tw, b, i, After(k, out[..m]), out[m..]);
      WrittenSplit(useTabs, tw, out, m);
      NonBlankConcat(Written(useTabs, tw, out[..m]), Written(useTabs, tw, out[m..]));
      NonBlankConcat(FlatText(a), FlatText(b));
    case NestS(n, e) => LayoutKeepsText(useTabs, tw, e, Pos(i.tabs, i.spaces + n), k, out);
    case NestT(e) => LayoutKeepsText(useTabs, tw, e, Deeper(i, tw), k, out);
    case Union(x, y) => LayoutKeepsText(useTabs, tw, if Renders(tw, x, i, k, out) then x else y, i, k, out);
    case Align(e) => LayoutKeepsText(useTabs, tw, e, Pos(i.tabs, k.spaces), k, out);
    case AlignAt(c, e) => LayoutKeepsText(useTabs, tw, e, Pos(i.tabs, c), k, out);
    case ByNesting(limit, near, far) => LayoutKeepsText(useTabs, tw, if i.spaces < limit then near else far, i, k, out);
  }

  lemma NothingWritten(useTabs: bool, tw: int)
    ensures Written(useTabs, tw, []) == "" && NonBlank("") == ""
  {
  }

  lemma SpaceIsBlank()
    ensures NonBlank("") == "" && NonBlank(" ") == ""
  {
    assert " "[1..] == "";
  }

  lemma WrittenText(useTabs: bool, tw: int, t: Tok)
    requires t.TextB? || t.KeywordB?
    ensures Written(useTabs, tw, [t]) == t.s
  {
    WrittenOne(useTabs, tw, t);
  }

  lemma WrittenPad(useTabs: bool, tw: int, n: int)
    ensures Written(useTabs, tw, [SpacesB(n)]) == Repeat(' ', n)
  {
    WrittenOne(useTabs, tw, SpacesB(n));
  }

  /** Whatever the width and the tabs, printing keeps every non-blank character in order. */
  lemma PrettyKeepsText(d: Doc, w: int, useTabs: bool, tw: int)
    requires tw > 0 && Coherent(d)
    ensures NonBlank(Pretty(d, w, useTabs, tw)) == NonBlank(FlatText(d))
  {
    BestRenders(w, tw, d);
    LayoutKeepsText(useTabs, tw, d, Pos(0, 0), Pos(0, 0), Best(w, tw, d));
  }

  // ------------------------------------------------- a group is one line when that fits

  /** Nothing in d starts a line or offers a choice. */
  predicate Flat(d: Doc) {
    match d
    case Nil => true
    case Text(_) => true
    case Keyword(_) => true
    case Line => false
    case SoftBreak => false
    case Pad(_) => false
    case Union(_, _) => false
    case Cat(a, b) => Flat(a) && Flat(b)
    case NestS(_, e) => Flat(e)
    case NestT(e) => Flat(e)
    case Align(e) => Flat(e)
    case AlignAt(_, e) => Flat(e)
    case ByNesting(_, near, far) => Flat(near) && Flat(far) && FlatText(near) == FlatText(far)
  }

  lemma {:induction false} FlattenIsFlat(d: Doc)
    requires Coherent(d)
    ensures Flat(Flatten(d))
  {
    match d
    case Cat(a, b) => FlattenIsFlat(a); FlattenIsFlat(b);
    case NestS(_, e) => FlattenIsFlat(e);
    case NestT(e) => FlattenIsFlat(e);
    case Union(x, _) => FlattenIsFlat(x);
    case Align(e) => FlattenIsFlat(e);
    case AlignAt(_, e) => FlattenIsFlat(e);
    case ByNesting(_, near, far) =>
      FlattenIsFlat(near); FlattenIsFlat(far);
      FlattenKeeps(near); FlattenKeeps(far);
    case _ =>
  }

  predicate OnlyText(ts: seq<Tok>) {
    forall n :: 0 <= n < |ts| ==> ts[n].TextB? || ts[n].KeywordB?
  }

  /** A flat document has one layout wherever it starts: its text, on the current line. */
  lemma {:induction false} FlatRenders(useTabs: bool, tw: int, d: Doc, i: Pos, k: Pos, out: seq<Tok>)
    requires tw > 0 && Flat(d) && Renders(tw, d, i, k, out)
    ensures OnlyText(out) && Written(useTabs, tw, out) == FlatText(d)
    decreases d
  {
    match d
    case Nil =>
    case Text(s) => WrittenText(useTabs, tw, TextB(s));
    case Keyword(s) => WrittenText(useTabs, tw, KeywordB(s));
    case Cat(a, b) =>
      var m :| 0 <= m <= |out| && Renders(tw, a, i, k, out[..m]) && Renders(tw, b, i, After(k, out[..m]), out[m..]);
      FlatRenders(useTabs, tw, a, i, k, out[..m]);
      FlatRenders(useTabs, tw, b, i, After(k, out[..m]), out[m..]);
      WrittenSplit(useTabs, tw, out, m);
      TextSplit(out, m);
    case NestS(n, e) => FlatRenders(useTabs, tw, e, Pos(i.tabs, i.spaces + n), k, out);
    case NestT(e) => FlatRenders(useTabs, tw, e, Deeper(i, tw), k, out);
    case Align(e) => FlatRenders(useTabs, tw, e, Pos(i.tabs, k.spaces), k, out);
    case AlignAt(c, e) => FlatRenders(useTabs, tw, e, Pos(i.tabs, c), k, out);
    case ByNesting(limit, near, far) => FlatRenders(useTabs, tw, if i.spaces < limit then near else far, i, k, out);
  }

  lemma TextSplit(out: seq<Tok>, m: nat)
    requires m <= |out| && OnlyText(out[..m]) && OnlyText(out[m..])
    ensures OnlyText(out)
  {
    forall n | 0 <= n < |out| ensures out[n].TextB? || out[n].KeywordB? {
      if n < m { assert out[n] == out[..m][n]; } else { assert out[n] == out[m..][n - m]; }
    }
  }

  lemma {:induction false} TextFits(useTabs: bool, tw: int, w: int, out: seq<Tok>)
    requires OnlyText(out)
    ensures Fits(w, out) <==> |Written(useTabs, tw, out)| <= w
    decreases |out|
  {
    if out != [] { TextFits(useTabs, tw, w - |out[0].s|, out[1..]); }
  }

  /** A group is printed on one line exactly when its text is no wider than the page. */
  lemma GroupFits(d: Doc, w: int, useTabs: bool, tw: int)
    requires tw > 0 && Coherent(d)
    ensures Pretty(Group(d), w, useTabs, tw) == if |FlatText(d)| <= w then FlatText(d) else Pretty(d, w, useTabs, tw)
  {
    var start, flat := Pos(0, 0), Best(w, tw, Flatten(d));
    GroupChooses(d, w, tw);
    FlattenIsFlat(d);
    FlattenKeeps(d);
    BestRenders(w, tw, Flatten(d));
    FlatRenders(useTabs, tw, Flatten(d), start, start, flat);
    TextFits(useTabs, tw, w, flat);
  }

  lemma GroupChooses(d: Doc, w: int, tw: int)
    requires tw > 0
    ensures Best(w, tw, Group(d)) == var flat := Best(w, tw, Flatten(d)); if Fits(w, flat) then flat else Best(w, tw, d)
  {
    var start := Pos(0, 0);
    var z := [Item(start, Group(d))];
    assert z[1..] == [];
    assert [Item(start, Flatten(d))] + z[1..] == [Item(start, Flatten(d))];
    assert [Item(start, d)] + z[1..] == [Item(start, d)];
  }

  // ------------------------------------------------- kept choices fit

  predicate SameLine(ts: seq<Tok>) {
    forall n :: 0 <= n < |ts| ==> !ts[n].LineB?
  }

  /** fits looks at the first line only, and at all of it. */
  lemma {:induction false} FitsMeans(tw: int, w: int, k: Pos, out: seq<Tok>)
    ensures Fits(w - Column(k, tw), out) <==>
            forall q :: 0 <= q <= |out| && SameLine(out[..q]) ==> Column(After(k, out[..q]), tw) <= w
    decreases |out|
  {
    var r := w - Column(k, tw);
    assert After(k, out[..0]) == k && SameLine(out[..0]);
    if out != [] && !out[0].LineB? {
      var k' := Step(k, out[0]);
      FitsMeans(tw, w, k', out[1..]);
      forall q | 1 <= q <= |out|
        ensures After(k, out[..q]) == After(k', out[1..][..q - 1]) && (SameLine(out[..q]) <==> SameLine(out[1..][..q - 1]))
      {
        SameLineCons(out, q);
      }
      if Fits(r, out) {
        forall q | 0 <= q <= |out| && SameLine(out[..q]) ensures Column(After(k, out[..q]), tw) <= w {
          if q > 0 { assert SameLine(out[1..][..q - 1]); }
        }
      } else if r >= 0 {
        assert !Fits(w - Column(k', tw), out[1..]);
        var p :| 0 <= p <= |out[1..]| && SameLine(out[1..][..p]) && Column(After(k', out[1..][..p]), tw) > w;
        assert SameLine(out[..p + 1]);
      }
    } else if out != [] {
      forall q | 0 <= q <= |out| && SameLine(out[..q]) ensures q == 0 {
        if q > 0 { FirstBreaks(out, q); }
      }
    }
  }

  lemma FirstBreaks(out: seq<Tok>, q: nat)
    requires 0 < q <= |out| && out[0].LineB?
    ensures !SameLine(out[..q])
  {
    assert out[..q][0] == out[0];
  }

  lemma SameLineCons(out: seq<Tok>, q: nat)
    requires 1 <= q <= |out| && !out[0].LineB?
    ensures out[..q] == [out[0]] + out[1..][..q - 1]
    ensures SameLine(out[..q]) <==> SameLine(out[1..][..q - 1])
    ensures forall k: Pos :: After(k, out[..q]) == After(Step(k, out[0]), out[1..][..q - 1])
  {
    var rest := out[1..][..q - 1];
    assert out[..q] == [out[0]] + rest && out[..q][1..] == rest;
    if SameLine(rest) {
      forall n | 0 <= n < q ensures !out[..q][n].LineB? { if n > 0 { assert out[..q][n] == rest[n - 1]; } }
    }
    if SameLine(out[..q]) {
      forall n | 0 <= n < |rest| ensures !rest[n].LineB? { assert rest[n] == out[..q][n + 1]; }
    }
  }

  /** Just before cell p of the layout of z, the first side of a choice was kept. */
  predicate KeptAt(w: int, tw: int, k: Pos, z: seq<Item>, p: nat)
    requires tw > 0
    decreases WeightAll(z)
  {
    if z == [] then false
    else
      var x, rest := z[0], z[1..];
      match Rewrite(tw, k, x)
      case Zero => KeptAt(w, tw, k, rest, p)
      case One(y) => KeptAt(w, tw, k, Push(y, rest), p)
      case Two(y, y') => KeptAt(w, tw, k, Push(y, Push(y', rest)), p)
      case Leaf =>
        if x.d.Union? then
          if Fits(w - k.spaces - k.tabs * tw, Be(w, tw, k, Push(Item(x.i, x.d.x), rest)))
          then p == 0 || KeptAt(w, tw, k, Push(Item(x.i, x.d.x), rest), p)
          else KeptAt(w, tw, k, Push(Item(x.i, x.d.y), rest), p)
        else p > 0 && KeptAt(w, tw, Step(k, LeafTok(x)), rest, p - 1)
  }

  /** From a kept choice to the end of its line, no cell passes the page width. */
  ghost predicate WithinFrom(w: int, tw: int, k: Pos, out: seq<Tok>, p: nat) {
    p <= |out| && forall q :: p <= q <= |out| && SameLine(out[p..q]) ==> Column(After(k, out[..q]), tw) <= w
  }

  lemma WithinCons(w: int, tw: int, k: Pos, t: Tok, out: seq<Tok>, p: nat)
    requires p > 0 && WithinFrom(w, tw, Step(k, t), out, p - 1)
    ensures WithinFrom(w, tw, k, [t] + out, p)
  {
    var all := [t] + out;
    forall q | p <= q <= |all| && SameLine(all[p..q]) ensures Column(After(k, all[..q]), tw) <= w {
      assert all[..q] == [t] + out[..q - 1] && all[..q][1..] == out[..q - 1];
      assert all[p..q] == out[p - 1..q - 1];
    }
  }

  lemma WithinNow(w: int, tw: int, k: Pos, out: seq<Tok>)
    requires Fits(w - k.spaces - k.tabs * tw, out)
    ensures WithinFrom(w, tw, k, out, 0)
  {
    FitsMeans(tw, w, k, out);
    forall q | 0 <= q <= |out| && SameLine(out[0..q]) ensures Column(After(k, out[..q]), tw) <= w {
      assert out[0..q] == out[..q];
    }
  }

  lemma {:induction false} KeptFits(w: int, tw: int, k: Pos, z: seq<Item>, p: nat)
    requires tw > 0 && KeptAt(w, tw, k, z, p)
    ensures WithinFrom(w, tw, k, Be(w, tw, k, z), p)
    decreases WeightAll(z)
  {
    hide WithinFrom, Fits;
    var x, rest := z[0], z[1..];
    WeightCons(x, rest);
    match Rewrite(tw, k, x)
    case Zero => KeptFits(w, tw, k, rest, p);
    case One(y) => WeightCons(y, rest); KeptFits(w, tw, k, [y] + rest, p);
    case Two(y, y') => WeightCons(y', rest); WeightCons(y, [y'] + rest); KeptFits(w, tw, k, [y] + ([y'] + rest), p);
    case Leaf =>
      if x.d.Union? {
        WeightCons(Item(x.i, x.d.x), rest);
        WeightCons(Item(x.i, x.d.y), rest);
        var kept := Be(w, tw, k, [Item(x.i, x.d.x)] + rest);
        if !Fits(w - k.spaces - k.tabs * tw, kept) {
          KeptFits(w, tw, k, [Item(x.i, x.d.y)] + rest, p);
        } else if KeptAt(w, tw, k, [Item(x.i, x.d.x)] + rest, p) {
          KeptFits(w, tw, k, [Item(x.i, x.d.x)] + rest, p);
        } else {
          WithinNow(w, tw, k, kept);
        }
      } else {
        KeptFits(w, tw, Step(k, LeafTok(x)), rest, p - 1);
        WithinCons(w, tw, k, LeafTok(x), Be(w, tw, Step(k, LeafTok(x)), rest), p);
      }
  }

  // ------------------------------------------------- tracked columns are real

  function NextColumn(tw: int, c: char, col: int): int {
    if c == '\n' then 0 else if c == '\t' then col + tw else col + 1
  }

  /** The column reached by writing s from column col. */
  function RealColumn(tw: int, col: int, s: string): int
    decreases |s|
  {
    if s == "" then col else RealColumn(tw, NextColumn(tw, s[0], col), s[1..])
  }

  lemma {:induction false} RealConcat(tw: int, col: int, s: string, t: string)
    ensures RealColumn(tw, col, s + t) == RealColumn(tw, RealColumn(tw, col, s), t)
    decreases |s|
  {
    if s == "" {
      assert s + t == t;
    } else {
      assert (s + t)[1..] == s[1..] + t;
      RealConcat(tw, NextColumn(tw, s[0], col), s[1..], t);
    }
  }

  predicate PlainText(s: string) {
    forall i :: 0 <= i < |s| ==> s[i] != '\n' && s[i] != '\t'
  }

  lemma {:induction false} RealPlain(tw: int, col: int, s: string)
    requires PlainText(s)
    ensures RealColumn(tw, col, s) == col + |s|
    decreases |s|
  {
    if s != "" { RealPlain(tw, col + 1, s[1..]); }
  }

  lemma {:induction false} RealTabs(tw: int, col: int, n: int)
    ensures RealColumn(tw, col, Repeat('\t', n)) == col + (if n < 0 then 0 else n) * tw
    decreases if n < 0 then 0 else n
  {
    if n > 0 {
      RealTabs(tw, col, n - 1);
      RealConcat(tw, col, Repeat('\t', n - 1), "\t");
      assert "\t"[1..] == "";
      assert n * tw == (n - 1) * tw + tw;
    }
  }

  /** What the loops that write an indentation can write. */
  predicate Indents(useTabs: bool, tw: int, i: Pos) {
    if useTabs then i.tabs >= 0 && i.spaces >= 0 else Column(i, tw) >= 0
  }

  /** A line starts at its tracked column exactly when its indentation is not negative. */
  lemma LineExact(useTabs: bool, tw: int, col: int, i: Pos)
    requires tw > 0
    ensures RealColumn(tw, col, WrittenTok(useTabs, tw, LineB(i))) == Column(i, tw) <==> Indents(useTabs, tw, i)
  {
    var indent := if useTabs then Repeat('\t', i.tabs) + Repeat(' ', i.spaces) else Repeat(' ', i.tabs * tw + i.spaces);
    RealConcat(tw, col, "\n", indent);
    assert RealColumn(tw, col, "\n") == 0 by { assert "\n"[1..] == ""; }
    if useTabs {
      RealConcat(tw, 0, Repeat('\t', i.tabs), Repeat(' ', i.spaces));
      RealTabs(tw, 0, i.tabs);
      RealPlain(tw, (if i.tabs < 0 then 0 else i.tabs) * tw, Repeat(' ', i.spaces));
      if i.tabs < 0 { assert i.tabs * tw < 0; }
    } else {
      RealPlain(tw, 0, Repeat(' ', i.tabs * tw + i.spaces));
    }
  }

  predicate Natural(k: Pos) {
    k.tabs >= 0 && k.spaces >= 0
  }

  /** Cells whose written form is as wide as what is tracked for them. */
  predicate LevelTok(t: Tok) {
    match t
    case TextB(s) => PlainText(s)
    case KeywordB(s) => PlainText(s)
    case LineB(i) => Natural(i)
    case SpacesB(n) => n >= 0
  }

  predicate Level(ts: seq<Tok>) {
    forall n :: 0 <= n < |ts| ==> LevelTok(ts[n])
  }

  lemma NaturalColumn(k: Pos, tw: int)
    requires Natural(k) && tw > 0
    ensures Column(k, tw) >= 0
  {
    assert k.tabs * tw >= 0;
  }

  /** No indentation in d, started with s spaces of nesting, becomes negative. */
  ghost predicate Steady(d: Doc, s: int) {
    match d
    case Nil => true
    case Text(t) => PlainText(t)
    case Keyword(t) => PlainText(t)
    case Line => true
    case SoftBreak => true
    case Pad(n) => n >= 0
    case Cat(a, b) => Steady(a, s) && Steady(b, s)
    case NestS(n, e) => s + n >= 0 && Steady(e, s + n)
    case NestT(e) => Steady(e, 0)
    case Union(x, y) => Steady(x, s) && Steady(y, s)
    case Align(e) => forall c: nat :: Steady(e, c)
    case AlignAt(c, e) => c >= 0 && Steady(e, c)
    case ByNesting(limit, near, far) => if s < limit then Steady(near, s) else Steady(far, s)
  }

  lemma {:induction false} FlattenSteady(d: Doc, s: int)
    requires Steady(d, s)
    ensures Steady(Flatten(d), s)
    decreases d
  {
    match d
    case Cat(a, b) => FlattenSteady(a, s); FlattenSteady(b, s);
    case NestS(n, e) => FlattenSteady(e, s + n);
    case NestT(e) => FlattenSteady(e, 0);
    case Union(x, _) => FlattenSteady(x, s);
    case Align(e) => forall c: nat ensures Steady(Flatten(e), c) { FlattenSteady(e, c); }
    case AlignAt(c, e) => FlattenSteady(e, c);
    case ByNesting(limit, near, far) => if s < limit { FlattenSteady(near, s); } else { FlattenSteady(far, s); }
    case _ =>
  }

  /** Steady whatever the nesting. */
  ghost predicate Solid(d: Doc) {
    forall s: nat :: Steady(d, s)
  }

  lemma GroupSolid(d: Doc)
    requires Solid(d)
    ensures Solid(Group(d)) && Solid(Align(d)) && Solid(NestT(d))
  {
    forall s: nat ensures Steady(Group(d), s) && Steady(Align(d), s) && Steady(NestT(d), s) { FlattenSteady(d, s); }
  }

  lemma PairSolid(a: Doc, b: Doc)
    requires Solid(a) && Solid(b)
    ensures Solid(Concat(a, b)) && Solid(Union(a, b))
  {
  }

  lemma ConcatSolid(a: Doc, b: Doc)
    requires Solid(a) && Solid(b)
    ensures Solid(Concat(a, b)) && Solid(Union(a, b)) && Solid(ConcatSpace(a, b)) && Solid(ConcatLine(a, b))
  {
    LeafSolid(" ", false, 0);
    hide Solid, Steady;
    PairSolid(a, b);
    PairSolid(Text(" "), b);
    PairSolid(Line, b);
    PairSolid(a, Concat(Text(" "), b));
    PairSolid(a, Concat(Line, b));
  }

  lemma LeafSolid(lbl: string, keyword: bool, n: nat)
    requires PlainText(lbl)
    ensures Solid(Label(keyword, lbl)) && Solid(Line) && Solid(Pad(n)) && Solid(Nil)
  {
  }

  lemma AlignUnderSolid(head: Doc, nested: Doc)
    requires Solid(head) && Solid(nested)
    ensures Solid(AlignUnder(head, nested))
  {
    hide Steady, Flatten;
    LeafSolid("", false, 0);
    var g := Group(nested);
    GroupSolid(nested);
    GroupSolid(g);
    ConcatSolid(head, Align(g));
    ConcatSolid(Line, g);
    GroupSolid(Concat(Line, g));
    ConcatSolid(head, NestT(Concat(Line, g)));
    ConcatSolid(ConcatSpace(head, Align(g)), Concat(head, NestT(Concat(Line, g))));
    GroupSolid(Union(ConcatSpace(head, Align(g)), Concat(head, NestT(Concat(Line, g)))));
  }

  ghost predicate AllSolid(ds: seq<Doc>) {
    forall n :: 0 <= n < |ds| ==> Solid(ds[n])
  }

  lemma {:induction false} ItemsSolid(lbl: string, keyword: bool, outer: bool, ds: seq<Doc>)
    requires PlainText(lbl) && AllSolid(ds)
    ensures Solid(Items(Label(keyword, lbl), outer, ds))
    decreases |ds|
  {
    hide Steady, Flatten, Label;
    LeafSolid(lbl, keyword, 0);
    if ds != [] {
      var sep := Label(keyword, lbl);
      var g := Group(ds[0]);
      GroupSolid(ds[0]);
      GroupSolid(g);
      ConcatSolid(sep, Align(g));
      ConcatSolid(sep, NestT(g));
      ConcatSolid(Line, ConcatSpace(sep, Align(g)));
      ConcatSolid(Line, ConcatSpace(sep, NestT(g)));
      var first := if outer then OuterItem(sep, ds[0]) else RightItem(sep, ds[0]);
      if |ds| > 1 {
        ItemsSolid(lbl, keyword, outer, ds[1..]);
        ConcatSolid(first, Items(sep, outer, ds[1..]));
      }
    }
  }

  /** The limit of JoinNestedOuter is what keeps its negative nesting from leaving the margin. */
  lemma JoinNestedOuterSolid(lbl: string, keyword: bool, ds: seq<Doc>)
    requires ds != [] && PlainText(lbl) && AllSolid(ds)
    ensures Solid(JoinNestedOuter(lbl, keyword, ds))
  {
    hide Flatten, Label, Items;
    var sep := Label(keyword, lbl);
    ItemsSolid(lbl, keyword, false, ds[1..]);
    ItemsSolid(lbl, keyword, true, ds[1..]);
    ConcatSolid(ds[0], Items(sep, false, ds[1..]));
    var near := JoinNestedRight(sep, ds);
    var far := Concat(ds[0], NestS(-|lbl| - 1, Items(sep, true, ds[1..])));
    forall s: nat ensures Steady(JoinNestedOuter(lbl, keyword, ds), s) {
      if s < |lbl| + 1 {
        assert Steady(near, s);
      } else {
        assert Steady(Items(sep, true, ds[1..]), s - |lbl| - 1) && Steady(ds[0], s);
        assert Steady(NestS(-|lbl| - 1, Items(sep, true, ds[1..])), s);
        assert Steady(far, s);
      }
    }
  }

  ghost predicate RowSolid(r: Row, width: nat) {
    r.doc.ADoc? ==> Solid(r.doc.doc) && PlainText(r.lbl) && |r.lbl| <= width
  }

  lemma RowItemsSolid(leftPad: bool, keyword: bool, width: nat, r: Row)
    requires !Skipped(r) && RowSolid(r, width)
    ensures Solid(AlignedItem(leftPad, keyword, width, r)) && Solid(NestedItem(keyword, r))
  {
    hide Solid, Flatten, Label;
    LeafSolid(r.lbl, keyword, width - |r.lbl|);
    LeafSolid(r.lbl, keyword, width + 1);
    var lbl, pad, g := Label(keyword, r.lbl), Pad(width - |r.lbl|), Group(r.doc.doc);
    GroupSolid(r.doc.doc);
    GroupSolid(g);
    ConcatSolid(pad, lbl);
    ConcatSolid(lbl, pad);
    ConcatSolid(Concat(pad, lbl), Align(g));
    ConcatSolid(Concat(lbl, pad), Align(g));
    ConcatSolid(Pad(width + 1), Align(g));
    ConcatSolid(Line, g);
    GroupSolid(Concat(Line, g));
    ConcatSolid(lbl, NestT(Concat(Line, g)));
  }

  lemma {:induction false} TableItemsSolid(leftPad: bool, keyword: bool, width: nat, rows: seq<Row>)
    requires forall n :: 0 <= n < |rows| ==> RowSolid(rows[n], width)
    ensures AllSolid(AlignedItems(leftPad, keyword, width, rows)) && AllSolid(NestedItems(keyword, rows))
    decreases |rows|
  {
    hide Solid, AlignedItem, NestedItem;
    if rows != [] {
      TableItemsSolid(leftPad, keyword, width, rows[..|rows| - 1]);
      var r := rows[|rows| - 1];
      if !Skipped(r) { RowItemsSolid(leftPad, keyword, width, r); }
    }
  }

  lemma {:induction false} StackSolid(ds: seq<Doc>)
    requires AllSolid(ds)
    ensures Solid(Stack(ds))
    decreases |ds|
  {
    hide Steady;
    LeafSolid("", false, 0);
    if |ds| > 1 {
      StackSolid(ds[1..]);
      ConcatSolid(ds[0], Stack(ds[1..]));
    }
  }

  /** Tables never pad by a negative amount. */
  lemma TableSolid(alignment: TableAlignment, keyword: bool, rows: seq<Row>)
    requires forall n :: 0 <= n < |rows| && rows[n].doc.ADoc? ==> Solid(rows[n].doc.doc) && PlainText(rows[n].lbl)
    ensures Solid(TableDoc(alignment, keyword, rows))
  {
    hide Solid, Flatten, Stack, AlignedItems, NestedItems;
    var leftPad, width := alignment.RightAlignFirst?, LeftWidth(rows);
    TableItemsSolid(leftPad, keyword, width, rows);
    var aligned, nested := Stack(AlignedItems(leftPad, keyword, width, rows)), Stack(NestedItems(keyword, rows));
    StackSolid(AlignedItems(leftPad, keyword, width, rows));
    StackSolid(NestedItems(keyword, rows));
    ConcatSolid(aligned, nested);
    GroupSolid(Union(aligned, nested));
    GroupSolid(nested);
  }

  lemma LevelSplit(out: seq<Tok>, m: nat)
    requires m <= |out| && Level(out[..m]) && Level(out[m..])
    ensures Level(out)
  {
    forall n | 0 <= n < |out| ensures LevelTok(out[n]) {
      if n < m { assert out[n] == out[..m][n]; } else { assert out[n] == out[m..][n - m]; }
    }
  }

  lemma {:induction false} SteadyIsLevel(tw: int, d: Doc, i: Pos, k: Pos, out: seq<Tok>)
    requires tw > 0 && Natural(i) && Natural(k) && Steady(d, i.spaces) && Renders(tw, d, i, k, out)
    ensures Level(out) && Natural(After(k, out))
    decreases d
  {
    match d
    case Cat(a, b) =>
      var m :| 0 <= m <= |out| && Renders(tw, a, i, k, out[..m]) && Renders(tw, b, i, After(k, out[..m]), out[m..]);
      SteadyIsLevel(tw, a, i, k, out[..m]);
      SteadyIsLevel(tw, b, i, After(k, out[..m]), out[m..]);
      LevelSplit(out, m);
      assert out == out[..m] + out[m..];
      AfterConcat(k, out[..m], out[m..]);
    case NestS(n, e) => SteadyIsLevel(tw, e, Pos(i.tabs, i.spaces + n), k, out);
    case NestT(e) => SteadyIsLevel(tw, e, Deeper(i, tw), k, out);
    case Union(x, y) => SteadyIsLevel(tw, if Renders(tw, x, i, k, out) then x else y, i, k, out);
    case Align(e) => SteadyIsLevel(tw, e, Pos(i.tabs, k.spaces), k, out);
    case AlignAt(c, e) => SteadyIsLevel(tw, e, Pos(i.tabs, c), k, out);
    case ByNesting(limit, near, far) => SteadyIsLevel(tw, if i.spaces < limit then near else far, i, k, out);
    case Nil =>
    case _ => assert After(k, out) == Step(k, out[0]) by { assert out[1..] == []; }
  }

  // ------------------------------------------------- when every tracked column is real

  predicate PlainTok(t: Tok) {
    match t
    case TextB(s) => PlainText(s)
    case KeywordB(s) => PlainText(s)
    case _ => true
  }

  predicate Plain(ts: seq<Tok>) {
    forall n :: 0 <= n < |ts| ==> PlainTok(ts[n])
  }

  /** Cells that can be written as wide as they are tracked. */
  predicate Writable(useTabs: bool, tw: int, t: Tok) {
    match t
    case LineB(i) => Indents(useTabs, tw, i)
    case SpacesB(n) => n >= 0
    case _ => true
  }

  predicate AllWritable(useTabs: bool, tw: int, out: seq<Tok>) {
    forall n :: 0 <= n < |out| ==> Writable(useTabs, tw, out[n])
  }

  /** Behind cell q the tracked column is the real one. */
  predicate RealAt(useTabs: bool, tw: int, k: Pos, out: seq<Tok>, q: nat)
    requires q <= |out|
  {
    RealColumn(tw, Column(k, tw), Written(useTabs, tw, out[..q])) == Column(After(k, out[..q]), tw)
  }

  ghost predicate RealThroughout(useTabs: bool, tw: int, k: Pos, out: seq<Tok>) {
    forall q: nat :: q <= |out| ==> RealAt(useTabs, tw, k, out, q)
  }

  lemma StepExact(useTabs: bool, tw: int, k: Pos, t: Tok)
    requires tw > 0 && PlainTok(t)
    ensures RealColumn(tw, Column(k, tw), WrittenTok(useTabs, tw, t)) == Column(Step(k, t), tw) <==> Writable(useTabs, tw, t)
  {
    match t
    case TextB(s) => RealPlain(tw, Column(k, tw), s);
    case KeywordB(s) => RealPlain(tw, Column(k, tw), s);
    case LineB(i) => LineExact(useTabs, tw, Column(k, tw), i);
    case SpacesB(n) => RealPlain(tw, Column(k, tw), Repeat(' ', n));
  }

  lemma RealNext(useTabs: bool, tw: int, k: Pos, out: seq<Tok>, q: nat)
    requires q < |out|
    requires RealColumn(tw, Column(k, tw), WrittenTok(useTabs, tw, out[0])) == Column(Step(k, out[0]), tw)
    ensures RealAt(useTabs, tw, k, out, q + 1) <==> RealAt(useTabs, tw, Step(k, out[0]), out[1..], q)
  {
    var front := out[..q + 1];
    assert front[0] == out[0] && front[1..] == out[1..][..q];
    RealConcat(tw, Column(k, tw), WrittenTok(useTabs, tw, front[0]), Written(useTabs, tw, front[1..]));
  }

  lemma RealFirst(useTabs: bool, tw: int, k: Pos, out: seq<Tok>)
    requires out != []
    ensures RealAt(useTabs, tw, k, out, 0)
    ensures RealAt(useTabs, tw, k, out, 1) <==>
            RealColumn(tw, Column(k, tw), WrittenTok(useTabs, tw, out[0])) == Column(Step(k, out[0]), tw)
  {
    var first := out[..1];
    assert first == [out[0]] && first[1..] == [] && out[..0] == [];
    assert After(k, first) == Step(k, out[0]);
    assert Written(useTabs, tw, first) == WrittenTok(useTabs, tw, out[0]) + "";
    assert WrittenTok(useTabs, tw, out[0]) + "" == WrittenTok(useTabs, tw, out[0]);
  }

  /** The tracked column is real behind every cell exactly when every cell can be written. */
  lemma {:induction false} ColumnsExact(useTabs: bool, tw: int, k: Pos, out: seq<Tok>)
    requires tw > 0 && Plain(out)
    ensures RealThroughout(useTabs, tw, k, out) <==> AllWritable(useTabs, tw, out)
    decreases |out|
  {
    hide WrittenTok, RealAt, PlainTok, Writable;
    if out == [] {
      assert RealAt(useTabs, tw, k, out, 0) by { NothingReal(useTabs, tw, k); }
    } else {
      StepExact(useTabs, tw, k, out[0]);
      RealFirst(useTabs, tw, k, out);
      if Writable(useTabs, tw, out[0]) {
        var rest, k' := out[1..], Step(k, out[0]);
        ColumnsExact(useTabs, tw, k', rest);
        forall q: nat | q < |out| ensures RealAt(useTabs, tw, k, out, q + 1) <==> RealAt(useTabs, tw, k', rest, q) {
          RealNext(useTabs, tw, k, out, q);
        }
        assert RealThroughout(useTabs, tw, k, out) <==> RealThroughout(useTabs, tw, k', rest) by {
          if RealThroughout(useTabs, tw, k, out) {
            forall q: nat | q <= |rest| ensures RealAt(useTabs, tw, k', rest, q) { assert RealAt(useTabs, tw, k, out, q + 1); }
          }
          if RealThroughout(useTabs, tw, k', rest) {
            forall q: nat | q <= |out| ensures RealAt(useTabs, tw, k, out, q) { if q > 0 { assert RealAt(useTabs, tw, k', rest, q - 1); } }
          }
        }
        assert AllWritable(useTabs, tw, out) <==> AllWritable(useTabs, tw, rest);
      } else {
        assert !RealAt(useTabs, tw, k, out, 1);
      }
    }
  }

  lemma NothingReal(useTabs: bool, tw: int, k: Pos)
    ensures RealAt(useTabs, tw, k, [], 0)
  {
  }

  predicate PlainDoc(d: Doc) {
    match d
    case Text(t) => PlainText(t)
    case Keyword(t) => PlainText(t)
    case Cat(a, b) => PlainDoc(a) && PlainDoc(b)
    case NestS(_, e) => PlainDoc(e)
    case NestT(e) => PlainDoc(e)
    case Union(x, y) => PlainDoc(x) && PlainDoc(y)
    case Align(e) => PlainDoc(e)
    case AlignAt(_, e) => PlainDoc(e)
    case ByNesting(_, near, far) => PlainDoc(near) && PlainDoc(far)
    case _ => true
  }

  lemma PlainSplit(out: seq<Tok>, m: nat)
    requires m <= |out| && Plain(out[..m]) && Plain(out[m..])
    ensures Plain(out)
  {
    forall n | 0 <= n < |out| ensures PlainTok(out[n]) {
      if n < m { assert out[n] == out[..m][n]; } else { assert out[n] == out[m..][n - m]; }
    }
  }

  lemma {:induction false} PlainCells(tw: int, d: Doc, i: Pos, k: Pos, out: seq<Tok>)
    requires tw > 0 && PlainDoc(d) && Renders(tw, d, i, k, out)
    ensures Plain(out)
    decreases d
  {
    match d
    case Cat(a, b) =>
      var m :| 0 <= m <= |out| && Renders(tw, a, i, k, out[..m]) && Renders(tw, b, i, After(k, out[..m]), out[m..]);
      PlainCells(tw, a, i, k, out[..m]);
      PlainCells(tw, b, i, After(k, out[..m]), out[m..]);
      PlainSplit(out, m);
    case NestS(n, e) => PlainCells(tw, e, Pos(i.tabs, i.spaces + n), k, out);
    case NestT(e) => PlainCells(tw, e, Deeper(i, tw), k, out);
    case Union(x, y) => PlainCells(tw, if Renders(tw, x, i, k, out) then x else y, i, k, out);
    case Align(e) => PlainCells(tw, e, Pos(i.tabs, k.spaces), k, out);
    case AlignAt(c, e) => PlainCells(tw, e, Pos(i.tabs, c), k, out);
    case ByNesting(limit, near, far) => PlainCells(tw, if i.spaces < limit then near else far, i, k, out);
    case _ =>
  }

  /** Every line on which a choice was kept ends within the page as written. */
  ghost predicate LinesFit(d: Doc, w: int, useTabs: bool, tw: int)
    requires tw > 0
  {
    var out := Best(w, tw, d);
    forall p: nat, q: nat :: p <= q <= |out| && KeptAt(w, tw, Pos(0, 0), [Item(Pos(0, 0), d)], p) && SameLine(out[p..q]) ==>
      RealColumn(tw, 0, Written(useTabs, tw, out[..q])) <= w
  }

  /** The printer tracks every column of a document of plain texts exactly when no indentation and
      no padding of the chosen layout is negative; lines on which a choice was kept then fit. */
  lemma PrettyExact(d: Doc, w: int, useTabs: bool, tw: int)
    requires tw > 0 && PlainDoc(d)
    ensures RealThroughout(useTabs, tw, Pos(0, 0), Best(w, tw, d)) <==> AllWritable(useTabs, tw, Best(w, tw, d))
    ensures AllWritable(useTabs, tw, Best(w, tw, d)) ==> LinesFit(d, w, useTabs, tw)
  {
    hide Be, Renders, KeptAt, Plain, AllWritable;
    var start, out := Pos(0, 0), Best(w, tw, d);
    BestRenders(w, tw, d);
    PlainCells(tw, d, start, start, out);
    ColumnsExact(useTabs, tw, start, out);
    forall p: nat, q: nat | AllWritable(useTabs, tw, out) && p <= q <= |out| && KeptAt(w, tw, start, [Item(start, d)], p) && SameLine(out[p..q])
      ensures RealColumn(tw, 0, Written(useTabs, tw, out[..q])) <= w
    {
      assert RealAt(useTabs, tw, start, out, q);
      KeptFits(w, tw, start, [Item(start, d)], p);
    }
  }

  /** A nesting of less than nothing: the choice is kept because column 3 is tracked where the
      written line is 8 wide, on a page of 3. */
  lemma NegativeNesting()
    ensures var d := NestS(-5, Cat(Line, Group(Text("aaaaaaaa")))); var out := Best(3, 4, d);
            && out == [LineB(Pos(0, -5)), TextB("aaaaaaaa")] && !AllWritable(false, 4, out) && !LinesFit(d, 3, false, 4)
            && Column(After(Pos(0, 0), out), 4) == 3 && RealColumn(4, 0, Written(false, 4, out)) == 8
  {
    hide Be, KeptAt, Written, RealColumn;
    var d := NestS(-5, Cat(Line, Group(Text("aaaaaaaa"))));
    var start, out := Pos(0, 0), Best(3, 4, d);
    NestedNegative(d);
    WrittenNegative();
    assert !Writable(false, 4, out[0]);
    assert out[..2] == out && SameLine(out[1..2]);
  }

  /** The choice under the nesting. */
  lemma NestedNegative(d: Doc)
    requires d == NestS(-5, Cat(Line, Group(Text("aaaaaaaa"))))
    ensures Best(3, 4, d) == [LineB(Pos(0, -5)), TextB("aaaaaaaa")]
    ensures KeptAt(3, 4, Pos(0, 0), [Item(Pos(0, 0), d)], 1)
  {
    var text := Text("aaaaaaaa");
    var start, under := Pos(0, 0), Pos(0, -5);
    var choice, both := Item(under, Group(text)), Item(under, Cat(Line, Group(text)));
    ChosenNegative(text, [choice]);
    assert Push(Item(under, Line), Push(choice, [])) == [Item(under, Line), choice];
    assert Push(both, []) == [both] && [both][1..] == [];
    assert Be(3, 4, start, [both]) == Be(3, 4, start, [Item(under, Line), choice]);
    assert KeptAt(3, 4, start, [both], 1);
  }

  /** The choice behind the line break. */
  lemma ChosenNegative(text: Doc, z: seq<Item>)
    requires text == Text("aaaaaaaa") && z == [Item(Pos(0, -5), Group(text))]
    ensures var under := Pos(0, -5); var line := [Item(under, Line)] + z;
            && Be(3, 4, Pos(0, 0), line) == [LineB(under), TextB("aaaaaaaa")]
            && KeptAt(3, 4, Pos(0, 0), line, 1)
  {
    var under := Pos(0, -5);
    var x, line := Item(under, text), [Item(under, Line)] + z;
    assert z[1..] == [] && line[1..] == z;
    var kept := Be(3, 4, under, Push(x, []));
    assert Push(x, []) == [x] && [x][1..] == [];
    var after := Step(under, TextB("aaaaaaaa"));
    assert Be(3, 4, after, []) == [];
    assert kept == [LeafTok(x)] + Be(3, 4, after, []);
    assert kept == [TextB("aaaaaaaa")];
    assert kept[1..] == [];
    assert Fits(8, kept);
    assert Be(3, 4, under, z) == kept && KeptAt(3, 4, under, z, 0);
  }

  lemma WrittenNegative()
    ensures var out := [LineB(Pos(0, -5)), TextB("aaaaaaaa")];
            Column(After(Pos(0, 0), out), 4) == 3 && RealColumn(4, 0, Written(false, 4, out)) == 8
  {
    var text := "aaaaaaaa";
    var out := [LineB(Pos(0, -5)), TextB(text)];
    assert out[1..] == [TextB(text)] && out[1..][1..] == [];
    assert Written(false, 4, out[1..]) == text + "" == text;
    assert WrittenTok(false, 4, out[0]) == "\n" + "" == "\n";
    assert Written(false, 4, out) == "\n" + text;
    RealConcat(4, 0, "\n", text);
    assert "\n"[1..] == "";
    RealPlain(4, 0, text);
  }

  lemma LevelWritable(useTabs: bool, tw: int, out: seq<Tok>)
    requires tw > 0 && Level(out)
    ensures Plain(out) && AllWritable(useTabs, tw, out)
  {
    forall n | 0 <= n < |out| ensures PlainTok(out[n]) && Writable(useTabs, tw, out[n]) {
      assert LevelTok(out[n]);
      if out[n].LineB? { NaturalColumn(out[n].i, tw); }
    }
  }

  /** In the printed text of a steady document, the tracked column is the real one after every
      cell, and every line on which a choice was kept ends within the page width. */
  lemma PrettyColumns(d: Doc, w: int, useTabs: bool, tw: int, q: nat)
    requires tw > 0 && Steady(d, 0) && q <= |Best(w, tw, d)|
    ensures var out := Best(w, tw, d);
            && RealColumn(tw, 0, Written(useTabs, tw, out[..q])) == Column(After(Pos(0, 0), out[..q]), tw)
            && forall p: nat :: p <= q && KeptAt(w, tw, Pos(0, 0), [Item(Pos(0, 0), d)], p) && SameLine(out[p..q]) ==>
                 RealColumn(tw, 0, Written(useTabs, tw, out[..q])) <= w
  {
    hide Be, Renders, Steady, KeptAt, Level, Plain, AllWritable;
    var start, out := Pos(0, 0), Best(w, tw, d);
    BestRenders(w, tw, d);
    SteadyIsLevel(tw, d, start, start, out);
    LevelWritable(useTabs, tw, out);
    ColumnsExact(useTabs, tw, start, out);
    assert RealAt(useTabs, tw, start, out, q);
    forall p: nat | p <= q && KeptAt(w, tw, start, [Item(start, d)], p) && SameLine(out[p..q])
      ensures Column(After(start, out[..q]), tw) <= w
    {
      KeptFits(w, tw, start, [Item(start, d)], p);
    }
  }
}
