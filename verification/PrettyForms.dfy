/** What the compound constructors (pkg/util/pretty/document.go and util.go) look like when laid out:
    where each part starts and how deep its lines are indented. */
module PrettyForms {
  import opened GoInts
  import opened PrettyDocs
  import opened PrettyLayout
  import opened PrettyProperties

  // ------------------------------------------------- one part behind the other

  /** Leaving out an empty side changes no layout. */
  lemma ConcatRenders(tw: int, a: Doc, b: Doc, i: Pos, k: Pos, out: seq<Tok>)
    requires tw > 0
    ensures Renders(tw, Concat(a, b), i, k, out) <==> Renders(tw, Cat(a, b), i, k, out)
  {
    assert out[..0] == [] && out[0..] == out && out[..|out|] == out && out[|out|..] == [];
    assert After(k, []) == k;
  }

  function LabelTok(keyword: bool, s: string): Tok {
    if keyword then KeywordB(s) else TextB(s)
  }

  /** A document that can only be written as the cell t. */
  predicate IsLeaf(d: Doc, i: Pos, t: Tok) {
    match d
    case Text(s) => t == TextB(s)
    case Keyword(s) => t == KeywordB(s)
    case Pad(n) => t == SpacesB(n)
    case Line => t == LineB(i)
    case _ => false
  }

  lemma LeafThen(tw: int, leaf: Doc, b: Doc, i: Pos, k: Pos, t: Tok, out: seq<Tok>)
    requires tw > 0 && IsLeaf(leaf, i, t)
    ensures Renders(tw, Concat(leaf, b), i, k, out) <==>
            out != [] && out[0] == t && Renders(tw, b, i, Step(k, t), out[1..])
  {
    ConcatRenders(tw, leaf, b, i, k, out);
    if out != [] {
      assert out[..1] == [out[0]] && After(k, [t]) == Step(k, t) by { assert [t][1..] == []; }
    }
    if Renders(tw, Cat(leaf, b), i, k, out) {
      var m :| 0 <= m <= |out| && Renders(tw, leaf, i, k, out[..m]) && Renders(tw, b, i, After(k, out[..m]), out[m..]);
      assert |out[..m]| == 1;
    }
  }

  /** a, a line break at the current indentation, and b; only the other if one of them is empty. */
  lemma ConcatLineRenders(tw: int, a: Doc, b: Doc, i: Pos, k: Pos, out: seq<Tok>)
    requires tw > 0
    ensures Renders(tw, ConcatLine(a, b), i, k, out) <==>
      if a.Nil? then Renders(tw, b, i, k, out)
      else if b.Nil? then Renders(tw, a, i, k, out)
      else exists m | 0 <= m < |out| :: Renders(tw, a, i, k, out[..m]) && out[m] == LineB(i) && Renders(tw, b, i, i, out[m + 1..])
  {
    if !a.Nil? && !b.Nil? { MiddleRenders(tw, a, Line, b, i, k, LineB(i), out); }
  }

  /** The same with a blank between them. */
  lemma ConcatSpaceRenders(tw: int, a: Doc, b: Doc, i: Pos, k: Pos, out: seq<Tok>)
    requires tw > 0
    ensures Renders(tw, ConcatSpace(a, b), i, k, out) <==>
      if a.Nil? then Renders(tw, b, i, k, out)
      else if b.Nil? then Renders(tw, a, i, k, out)
      else exists m | 0 <= m < |out| ::
        Renders(tw, a, i, k, out[..m]) && out[m] == TextB(" ") && Renders(tw, b, i, Step(After(k, out[..m]), TextB(" ")), out[m + 1..])
  {
    if !a.Nil? && !b.Nil? { MiddleRenders(tw, a, Text(" "), b, i, k, TextB(" "), out); }
  }

  lemma MiddleRenders(tw: int, a: Doc, leaf: Doc, b: Doc, i: Pos, k: Pos, t: Tok, out: seq<Tok>)
    requires tw > 0 && IsLeaf(leaf, i, t)
    ensures Renders(tw, Concat(a, Concat(leaf, b)), i, k, out) <==>
      exists m | 0 <= m < |out| :: Renders(tw, a, i, k, out[..m]) && out[m] == t && Renders(tw, b, i, Step(After(k, out[..m]), t), out[m + 1..])
  {
    var rest := Concat(leaf, b);
    ConcatRenders(tw, a, rest, i, k, out);
    forall m | 0 <= m <= |out|
      ensures Renders(tw, rest, i, After(k, out[..m]), out[m..]) <==>
              m < |out| && out[m] == t && Renders(tw, b, i, Step(After(k, out[..m]), t), out[m + 1..])
    {
      LeafThen(tw, leaf, b, i, After(k, out[..m]), t, out[m..]);
      if m < |out| { assert out[m..][0] == out[m] && out[m..][1..] == out[m + 1..]; }
    }
    CatMeans(tw, a, rest, i, k, out);
  }

  lemma CatMeans(tw: int, a: Doc, b: Doc, i: Pos, k: Pos, out: seq<Tok>)
    requires tw > 0
    ensures Renders(tw, Cat(a, b), i, k, out) <==>
      exists m | 0 <= m <= |out| :: Renders(tw, a, i, k, out[..m]) && Renders(tw, b, i, After(k, out[..m]), out[m..])
  {
  }

  /** A group is laid out flat or as its document. */
  lemma GroupRenders(tw: int, d: Doc, i: Pos, k: Pos, out: seq<Tok>)
    requires tw > 0
    ensures Renders(tw, Group(d), i, k, out) <==> Renders(tw, Flatten(d), i, k, out) || Renders(tw, d, i, k, out)
  {
  }

  /** One level deeper is the next tab stop. */
  lemma DeeperIsNextStop(i: Pos, tw: int, c: int)
    requires tw > 0 && i.spaces >= 0
    ensures Column(Deeper(i, tw), tw) > Column(i, tw) && Column(Deeper(i, tw), tw) % tw == 0 && Deeper(i, tw).spaces == 0
    ensures c > Column(i, tw) && c % tw == 0 ==> c >= Column(Deeper(i, tw), tw)
  {
    var q, r := i.spaces / tw, i.spaces % tw;
    assert i.spaces == q * tw + r;
    var t := i.tabs + 1 + q;
    assert Column(Deeper(i, tw), tw) == t * tw;
    assert t * tw == i.tabs * tw + tw + q * tw;
    assert (t * tw) % tw == 0 by { MultipleOf(t, tw); }
    if c > Column(i, tw) && c % tw == 0 {
      var n := c / tw;
      assert c == n * tw;
      TimesGrows(n, t, tw);
    }
  }

  lemma MultipleOf(t: int, tw: int)
    requires tw > 0
    ensures (t * tw) % tw == 0
  {
    var q, r := t * tw / tw, (t * tw) % tw;
    assert t * tw == q * tw + r;
    assert (t - q) * tw == r;
    TimesGrows(0, t - q, tw);
    TimesGrows(t - q, 0, tw);
  }

  lemma TimesGrows(a: int, b: int, tw: int)
    requires tw > 0
    ensures a < b ==> a * tw + tw <= b * tw
  {
    Distributes(a, b - a, tw);
    Distributes(1, b - a - 1, tw);
    if a < b { NotNegative(b - a - 1, tw); }
  }

  lemma Distributes(a: int, b: int, c: int)
    ensures (a + b) * c == a * c + b * c
  {
  }

  lemma NotNegative(a: nat, b: nat)
    ensures a * b >= 0
  {
  }

  // ------------------------------------------------- documents under a head

  /** b on a new line one level deeper. */
  ghost predicate Under(tw: int, a: Doc, b: Doc, i: Pos, k: Pos, out: seq<Tok>)
    requires tw > 0
  {
    var deep := Deeper(i, tw);
    exists m | 0 <= m < |out| :: Renders(tw, a, i, k, out[..m]) && out[m] == LineB(deep) && Renders(tw, b, deep, deep, out[m + 1..])
  }

  /** b behind a and a blank, its own lines starting where it starts. */
  ghost predicate Beside(tw: int, a: Doc, b: Doc, i: Pos, k: Pos, out: seq<Tok>)
    requires tw > 0
  {
    if a.Nil? then Renders(tw, b, Pos(i.tabs, k.spaces), k, out)
    else exists m | 0 <= m < |out| ::
      var at := Step(After(k, out[..m]), TextB(" "));
      Renders(tw, a, i, k, out[..m]) && out[m] == TextB(" ") && Renders(tw, b, Pos(i.tabs, at.spaces), at, out[m + 1..])
  }

  lemma UnderRenders(tw: int, a: Doc, b: Doc, i: Pos, k: Pos, out: seq<Tok>)
    requires tw > 0
    ensures Renders(tw, Concat(a, NestT(Concat(Line, b))), i, k, out) <==> Under(tw, a, b, i, k, out)
  {
    hide Renders;
    var deep, rest := Deeper(i, tw), NestT(Concat(Line, b));
    ConcatRenders(tw, a, rest, i, k, out);
    CatMeans(tw, a, rest, i, k, out);
    if Renders(tw, Cat(a, rest), i, k, out) {
      var m :| 0 <= m <= |out| && Renders(tw, a, i, k, out[..m]) && Renders(tw, rest, i, After(k, out[..m]), out[m..]);
      BrokenRenders(tw, b, i, After(k, out[..m]), out[m..]);
      assert out[m..][0] == out[m] && out[m..][1..] == out[m + 1..];
      assert Under(tw, a, b, i, k, out);
    }
    if Under(tw, a, b, i, k, out) {
      var m :| 0 <= m < |out| && Renders(tw, a, i, k, out[..m]) && out[m] == LineB(deep) && Renders(tw, b, deep, deep, out[m + 1..]);
      BrokenRenders(tw, b, i, After(k, out[..m]), out[m..]);
      assert out[m..][0] == out[m] && out[m..][1..] == out[m + 1..];
      assert Renders(tw, rest, i, After(k, out[..m]), out[m..]);
    }
  }

  lemma BrokenRenders(tw: int, b: Doc, i: Pos, k: Pos, out: seq<Tok>)
    requires tw > 0
    ensures var deep := Deeper(i, tw);
            Renders(tw, NestT(Concat(Line, b)), i, k, out) <==> out != [] && out[0] == LineB(deep) && Renders(tw, b, deep, deep, out[1..])
  {
    LeafThen(tw, Line, b, Deeper(i, tw), k, LineB(Deeper(i, tw)), out);
  }

  lemma BesideRenders(tw: int, a: Doc, b: Doc, i: Pos, k: Pos, out: seq<Tok>)
    requires tw > 0
    ensures Renders(tw, ConcatSpace(a, Align(b)), i, k, out) <==> Beside(tw, a, b, i, k, out)
  {
    ConcatSpaceRenders(tw, a, Align(b), i, k, out);
  }

  /** All on the current line, with a blank between them. */
  predicate OneLine(a: Doc, b: Doc, out: seq<Tok>) {
    OnlyText(out) && Written(false, 1, out) == FlatText(a) + " " + FlatText(b)
  }

  /** NestUnder puts both on one line, or the second below and one level deeper. */
  lemma NestUnderRenders(tw: int, head: Doc, nested: Doc, i: Pos, k: Pos, out: seq<Tok>)
    requires tw > 0 && Coherent(head) && Coherent(nested)
    ensures Renders(tw, NestUnder(head, nested), i, k, out) ==> OneLine(head, nested, out) || Under(tw, head, Group(nested), i, k, out)
    ensures Under(tw, head, Group(nested), i, k, out) ==> Renders(tw, NestUnder(head, nested), i, k, out)
  {
    hide Renders, Under;
    var d := Concat(head, NestT(Concat(Line, Group(nested))));
    GroupRenders(tw, d, i, k, out);
    UnderRenders(tw, head, Group(nested), i, k, out);
    if Renders(tw, Flatten(d), i, k, out) {
      NestUnderKeeps(head, nested);
      BelowIsFlat(head, nested);
      FlatIsOneLine(tw, d, i, k, out);
    }
  }

  lemma BelowIsFlat(head: Doc, nested: Doc)
    requires Coherent(head) && Coherent(nested)
    ensures var d := Concat(head, NestT(Concat(Line, Group(nested)))); Coherent(d) && FlatText(d) == FlatText(head) + " " + FlatText(nested)
  {
    GroupKeeps(nested);
    BelowKeeps(head, Group(nested));
  }

  lemma FlatIsOneLine(tw: int, d: Doc, i: Pos, k: Pos, out: seq<Tok>)
    requires tw > 0 && Coherent(d) && Renders(tw, Flatten(d), i, k, out)
    ensures OnlyText(out) && Written(false, 1, out) == FlatText(d)
  {
    FlattenIsFlat(d);
    FlattenKeeps(d);
    FlatRenders(false, tw, Flatten(d), i, k, out);
    WrittenAnywhere(tw, out);
  }

  lemma {:induction false} WrittenAnywhere(tw: int, out: seq<Tok>)
    requires OnlyText(out)
    ensures Written(false, tw, out) == Written(false, 1, out)
    decreases |out|
  {
    if out != [] { WrittenAnywhere(tw, out[1..]); }
  }

  /** AlignUnder puts both on one line, or the second behind the first with its lines aligned there,
      or below it and one level deeper. */
  lemma AlignUnderRenders(tw: int, head: Doc, nested: Doc, i: Pos, k: Pos, out: seq<Tok>)
    requires tw > 0 && Coherent(head) && Coherent(nested)
    ensures Renders(tw, AlignUnder(head, nested), i, k, out) ==>
      || (OnlyText(out) && Written(false, 1, out) == FlatText(AlignUnder(head, nested)))
      || Beside(tw, head, Group(nested), i, k, out) || Under(tw, head, Group(nested), i, k, out)
    ensures Beside(tw, head, Group(nested), i, k, out) || Under(tw, head, Group(nested), i, k, out) ==>
      Renders(tw, AlignUnder(head, nested), i, k, out)
  {
    hide Under, Beside;
    var g := Group(nested);
    var near, far := ConcatSpace(head, Align(g)), Concat(head, NestT(Concat(Line, g)));
    UnderRenders(tw, head, g, i, k, out);
    BesideRenders(tw, head, g, i, k, out);
    GroupRenders(tw, Union(near, far), i, k, out);
    AlignUnderKeeps(head, nested);
    if Renders(tw, Flatten(Union(near, far)), i, k, out) { FlatOfGroup(tw, Union(near, far), i, k, out); }
  }

  lemma FlatOfGroup(tw: int, d: Doc, i: Pos, k: Pos, out: seq<Tok>)
    requires tw > 0 && Coherent(Group(d)) && Renders(tw, Flatten(d), i, k, out)
    ensures OnlyText(out) && Written(false, 1, out) == FlatText(Group(d))
  {
    hide Renders;
    FlattenKeeps(d);
    FlatIsOneLine(tw, d, i, k, out);
  }

  // ------------------------------------------------- joined documents

  /** Each document on a line of its own. */
  ghost predicate Stacked(tw: int, ds: seq<Doc>, i: Pos, k: Pos, out: seq<Tok>)
    requires tw > 0
    decreases |ds|
  {
    if ds == [] then out == []
    else if |ds| == 1 then Renders(tw, ds[0], i, k, out)
    else exists m | 0 <= m < |out| :: Renders(tw, ds[0], i, k, out[..m]) && out[m] == LineB(i) && Stacked(tw, ds[1..], i, i, out[m + 1..])
  }

  lemma {:induction false} StackRenders(tw: int, ds: seq<Doc>, i: Pos, k: Pos, out: seq<Tok>)
    requires tw > 0 && forall n :: 0 <= n < |ds| ==> !ds[n].Nil?
    ensures Renders(tw, Stack(ds), i, k, out) <==> Stacked(tw, ds, i, k, out)
    ensures Stack(ds).Nil? <==> ds == []
    decreases |ds|
  {
    hide Renders;
    if |ds| == 0 {
      NilRenders(tw, i, k, out);
    } else if |ds| > 1 {
      ConcatLineRenders(tw, ds[0], Stack(ds[1..]), i, k, out);
      StackRenders(tw, ds[1..], i, k, out);
      var rest := Stack(ds[1..]);
      if m :| 0 <= m < |out| && Renders(tw, ds[0], i, k, out[..m]) && out[m] == LineB(i) && Renders(tw, rest, i, i, out[m + 1..]) {
        StackRenders(tw, ds[1..], i, i, out[m + 1..]);
      }
      if m :| 0 <= m < |out| && Renders(tw, ds[0], i, k, out[..m]) && out[m] == LineB(i) && Stacked(tw, ds[1..], i, i, out[m + 1..]) {
        StackRenders(tw, ds[1..], i, i, out[m + 1..]);
      }
    }
  }

  lemma NilRenders(tw: int, i: Pos, k: Pos, out: seq<Tok>)
    requires tw > 0
    ensures Renders(tw, Nil, i, k, out) <==> out == []
  {
  }

  /** Where the document of a joined item stands: behind its line break, label and blank. */
  function Behind(i: Pos, lbl: string): Pos {
    Pos(i.tabs, i.spaces + |lbl| + 1)
  }

  /** Items on lines of their own at i, each with the label and a blank in front. Outer items keep
      their lines where they start, the others one level deeper. */
  ghost predicate Laid(tw: int, keyword: bool, lbl: string, outer: bool, i: Pos, ds: seq<Doc>, out: seq<Tok>)
    requires tw > 0
    decreases |ds|
  {
    if ds == [] then out == []
    else exists m | 3 <= m <= |out| ::
      && out[0] == LineB(i) && out[1] == LabelTok(keyword, lbl) && out[2] == TextB(" ")
      && Renders(tw, Group(ds[0]), if outer then Behind(i, lbl) else Deeper(i, tw), Behind(i, lbl), out[3..m])
      && Laid(tw, keyword, lbl, outer, i, ds[1..], out[m..])
  }

  /** One such item. */
  lemma ItemRenders(tw: int, keyword: bool, lbl: string, outer: bool, d: Doc, i: Pos, k: Pos, out: seq<Tok>)
    requires tw > 0
    ensures var sep := Label(keyword, lbl);
            Renders(tw, if outer then OuterItem(sep, d) else RightItem(sep, d), i, k, out) <==>
            && |out| >= 3 && out[0] == LineB(i) && out[1] == LabelTok(keyword, lbl) && out[2] == TextB(" ")
            && Renders(tw, Group(d), if outer then Behind(i, lbl) else Deeper(i, tw), Behind(i, lbl), out[3..])
  {
    var sep, g := Label(keyword, lbl), Group(d);
    var body := if outer then Align(g) else NestT(g);
    var t := LabelTok(keyword, lbl);
    LeafThen(tw, Line, Concat(sep, Concat(Text(" "), body)), i, k, LineB(i), out);
    if out != [] && out[0] == LineB(i) {
      var rest, at := out[1..], Step(k, LineB(i));
      LeafThen(tw, sep, Concat(Text(" "), body), i, at, t, rest);
      if rest != [] && rest[0] == t {
        var last, at' := rest[1..], Step(at, t);
        LeafThen(tw, Text(" "), body, i, at', TextB(" "), last);
        if last != [] {
          assert last[1..] == out[3..] && last[0] == out[2] && rest[0] == out[1];
          assert Step(at', TextB(" ")) == Behind(i, lbl);
        }
      }
    }
  }

  lemma {:induction false} ItemsRender(tw: int, keyword: bool, lbl: string, outer: bool, ds: seq<Doc>, i: Pos, k: Pos, out: seq<Tok>)
    requires tw > 0
    ensures Renders(tw, Items(Label(keyword, lbl), outer, ds), i, k, out) <==> Laid(tw, keyword, lbl, outer, i, ds, out)
    decreases |ds|
  {
    hide Renders, OuterItem, RightItem;
    var sep := Label(keyword, lbl);
    if ds == [] {
      NilRenders(tw, i, k, out);
    } else {
      var first, more := if outer then OuterItem(sep, ds[0]) else RightItem(sep, ds[0]), Items(sep, outer, ds[1..]);
      if |ds| == 1 {
        ItemRenders(tw, keyword, lbl, outer, ds[0], i, k, out);
        OneLaid(tw, keyword, lbl, outer, i, ds, out);
      } else {
        ConcatRenders(tw, first, more, i, k, out);
        CatMeans(tw, first, more, i, k, out);
        if Renders(tw, Cat(first, more), i, k, out) {
          var m :| 0 <= m <= |out| && Renders(tw, first, i, k, out[..m]) && Renders(tw, more, i, After(k, out[..m]), out[m..]);
          ItemRenders(tw, keyword, lbl, outer, ds[0], i, k, out[..m]);
          ItemsRender(tw, keyword, lbl, outer, ds[1..], i, After(k, out[..m]), out[m..]);
          assert out[..m][3..] == out[3..m] && out[..m][0] == out[0] && out[..m][1] == out[1] && out[..m][2] == out[2];
          assert Laid(tw, keyword, lbl, outer, i, ds, out);
        }
        if Laid(tw, keyword, lbl, outer, i, ds, out) {
          var m :| 3 <= m <= |out| && out[0] == LineB(i) && out[1] == LabelTok(keyword, lbl) && out[2] == TextB(" ") &&
            Renders(tw, Group(ds[0]), if outer then Behind(i, lbl) else Deeper(i, tw), Behind(i, lbl), out[3..m]) &&
            Laid(tw, keyword, lbl, outer, i, ds[1..], out[m..]);
          ItemRenders(tw, keyword, lbl, outer, ds[0], i, k, out[..m]);
          ItemsRender(tw, keyword, lbl, outer, ds[1..], i, After(k, out[..m]), out[m..]);
          assert out[..m][3..] == out[3..m] && out[..m][0] == out[0] && out[..m][1] == out[1] && out[..m][2] == out[2];
          assert Renders(tw, first, i, k, out[..m]);
          assert Renders(tw, Cat(first, more), i, k, out);
        }
      }
    }
  }

  lemma OneLaid(tw: int, keyword: bool, lbl: string, outer: bool, i: Pos, ds: seq<Doc>, out: seq<Tok>)
    requires tw > 0 && |ds| == 1
    ensures Laid(tw, keyword, lbl, outer, i, ds, out) <==>
            && |out| >= 3 && out[0] == LineB(i) && out[1] == LabelTok(keyword, lbl) && out[2] == TextB(" ")
            && Renders(tw, Group(ds[0]), if outer then Behind(i, lbl) else Deeper(i, tw), Behind(i, lbl), out[3..])
  {
    hide Renders;
    assert ds[1..] == [];
    if |out| >= 3 {
      var n := |out|;
      assert out[3..n] == out[3..] && out[n..] == [];
      assert Laid(tw, keyword, lbl, outer, i, [], out[n..]);
      forall m | 3 <= m <= |out| && Laid(tw, keyword, lbl, outer, i, ds[1..], out[m..]) ensures m == n { assert out[m..] == []; }
    }
  }

  /** JoinNestedRight: the first document, then the others on lines at the same indentation behind the
      separator, their further lines one level deeper. */
  lemma JoinNestedRightRenders(tw: int, keyword: bool, lbl: string, ds: seq<Doc>, i: Pos, k: Pos, out: seq<Tok>)
    requires tw > 0 && ds != []
    ensures Renders(tw, JoinNestedRight(Label(keyword, lbl), ds), i, k, out) <==>
      exists m | 0 <= m <= |out| :: Renders(tw, ds[0], i, k, out[..m]) && Laid(tw, keyword, lbl, false, i, ds[1..], out[m..])
  {
    FirstThenItems(tw, keyword, lbl, false, ds, i, i, k, out, Items(Label(keyword, lbl), false, ds[1..]));
    if |ds| == 1 {
      assert ds[1..] == [] && out[..|out|] == out && out[|out|..] == [];
      hide Renders;
    }
  }

  lemma FirstThenItems(tw: int, keyword: bool, lbl: string, outer: bool, ds: seq<Doc>, i: Pos, j: Pos, k: Pos, out: seq<Tok>, items: Doc)
    requires tw > 0 && ds != []
    requires forall k, o :: Renders(tw, items, i, k, o) <==> Renders(tw, Items(Label(keyword, lbl), outer, ds[1..]), j, k, o)
    ensures Renders(tw, Concat(ds[0], items), i, k, out) <==>
      exists m | 0 <= m <= |out| :: Renders(tw, ds[0], i, k, out[..m]) && Laid(tw, keyword, lbl, outer, j, ds[1..], out[m..])
  {
    hide Laid, Items;
    ConcatRenders(tw, ds[0], items, i, k, out);
    CatMeans(tw, ds[0], items, i, k, out);
    forall m | 0 <= m <= |out|
      ensures Renders(tw, items, i, After(k, out[..m]), out[m..]) <==> Laid(tw, keyword, lbl, outer, j, ds[1..], out[m..])
    {
      ItemsRender(tw, keyword, lbl, outer, ds[1..], j, After(k, out[..m]), out[m..]);
    }
  }

  /** JoinNestedOuter: where the indentation leaves no room for the separator, as JoinNestedRight;
      otherwise the separators hang to the left, so that every document starts, and keeps its lines, at
      the indentation where the first one belongs. */
  lemma JoinNestedOuterRenders(tw: int, keyword: bool, lbl: string, ds: seq<Doc>, i: Pos, k: Pos, out: seq<Tok>)
    requires tw > 0 && ds != []
    ensures var hung := Pos(i.tabs, i.spaces - |lbl| - 1);
      Renders(tw, JoinNestedOuter(lbl, keyword, ds), i, k, out) <==>
        if i.spaces < |lbl| + 1 then Renders(tw, JoinNestedRight(Label(keyword, lbl), ds), i, k, out)
        else exists m | 0 <= m <= |out| :: Renders(tw, ds[0], i, k, out[..m]) && Laid(tw, keyword, lbl, true, hung, ds[1..], out[m..])
    ensures Behind(Pos(i.tabs, i.spaces - |lbl| - 1), lbl) == i
  {
    var items := Items(Label(keyword, lbl), true, ds[1..]);
    FirstThenItems(tw, keyword, lbl, true, ds, i, Pos(i.tabs, i.spaces - |lbl| - 1), k, out, NestS(-|lbl| - 1, items));
  }

  // ------------------------------------------------- tables

  /** The left column is as wide as the widest label of a row that has a document. */
  lemma {:induction false} LeftWidthIs(rows: seq<Row>)
    ensures LeftWidth(rows) > 0 ==> exists n :: 0 <= n < |rows| && rows[n].doc.ADoc? && |rows[n].lbl| == LeftWidth(rows)
    decreases |rows|
  {
    if rows != [] {
      var before := rows[..|rows| - 1];
      LeftWidthIs(before);
      if LeftWidth(rows) == LeftWidth(before) > 0 {
        var n :| 0 <= n < |before| && before[n].doc.ADoc? && |before[n].lbl| == LeftWidth(before);
        assert rows[n] == before[n];
      }
    }
  }

  /** The label stands alone in its column: it ends where the column ends if it is right-aligned, and
      starts where the column starts otherwise. */
  ghost predicate LabelPlaced(right: bool, keyword: bool, lbl: string, width: nat, k: Pos, out: seq<Tok>) {
    exists n: nat :: LabelAt(right, keyword, lbl, width, k, out, n)
  }

  predicate LabelAt(right: bool, keyword: bool, lbl: string, width: nat, k: Pos, out: seq<Tok>, n: nat) {
    n < |out| && out[n] == LabelTok(keyword, lbl) && (forall l :: 0 <= l < n ==> out[l].SpacesB?) &&
      if right then After(k, out[..n + 1]) == Pos(k.tabs, k.spaces + width) else After(k, out[..n]) == k
  }

  /** The document starts, on the same line, one blank behind the label column, and its further lines
      start there too. */
  ghost predicate DocPlaced(doc: Doc, width: nat, tw: int, i: Pos, k: Pos, out: seq<Tok>)
    requires tw > 0
  {
    exists m: nat :: m <= |out| && (forall l :: 0 <= l < m ==> !out[l].LineB?) &&
      var at := Pos(k.tabs, k.spaces + width + 1);
      After(k, out[..m]) == at && Renders(tw, Group(doc), Pos(i.tabs, at.spaces), at, out[m..])
  }

  /** How an aligned item may be laid out. */
  lemma AlignedItemRenders(right: bool, keyword: bool, width: nat, r: Row, tw: int, i: Pos, k: Pos, out: seq<Tok>)
    requires tw > 0 && !Skipped(r) && |r.lbl| <= width && Renders(tw, AlignedItem(right, keyword, width, r), i, k, out)
    ensures r.lbl != "" ==> LabelPlaced(right, keyword, r.lbl, width, k, out)
    ensures !r.doc.doc.Nil? ==> DocPlaced(r.doc.doc, width, tw, i, k, out)
  {
    hide Renders, LabelPlaced, DocPlaced;
    var doc, pad := r.doc.doc, width - |r.lbl|;
    if r.lbl == "" {
      UnlabelledRenders(doc, width, tw, i, k, out);
    } else if doc.Nil? {
      HeadRenders(right, keyword, r.lbl, pad, tw, i, k, out);
      assert out[..2] == out;
      FrontPlaced(right, keyword, r.lbl, width, k, out);
    } else {
      LabelledRenders(right, keyword, r.lbl, doc, width, tw, i, k, out);
    }
  }

  lemma AlignRenders(tw: int, g: Doc, i: Pos, k: Pos, out: seq<Tok>)
    requires tw > 0
    ensures Renders(tw, Align(g), i, k, out) <==> Renders(tw, g, Pos(i.tabs, k.spaces), k, out)
  {
  }

  lemma UnlabelledRenders(doc: Doc, width: nat, tw: int, i: Pos, k: Pos, out: seq<Tok>)
    requires tw > 0 && Renders(tw, Concat(Pad(width + 1), Align(Group(doc))), i, k, out)
    ensures DocPlaced(doc, width, tw, i, k, out)
  {
    hide Renders;
    LeafThen(tw, Pad(width + 1), Align(Group(doc)), i, k, SpacesB(width + 1), out);
    AlignRenders(tw, Group(doc), i, Step(k, out[0]), out[1..]);
    AfterOne(k, out);
  }

  function Head(right: bool, keyword: bool, lbl: string, pad: nat): Doc {
    if right then Concat(Pad(pad), Label(keyword, lbl)) else Concat(Label(keyword, lbl), Pad(pad))
  }

  lemma LabelledRenders(right: bool, keyword: bool, lbl: string, doc: Doc, width: nat, tw: int, i: Pos, k: Pos, out: seq<Tok>)
    requires tw > 0 && |lbl| <= width && Renders(tw, ConcatSpace(Head(right, keyword, lbl, width - |lbl|), Align(Group(doc))), i, k, out)
    ensures LabelPlaced(right, keyword, lbl, width, k, out) && DocPlaced(doc, width, tw, i, k, out)
  {
    hide Renders, LabelPlaced, DocPlaced, After;
    var head := Head(right, keyword, lbl, width - |lbl|);
    ConcatSpaceRenders(tw, head, Align(Group(doc)), i, k, out);
    var m :| 0 <= m < |out| && Renders(tw, head, i, k, out[..m]) && out[m] == TextB(" ") &&
      Renders(tw, Align(Group(doc)), i, Step(After(k, out[..m]), TextB(" ")), out[m + 1..]);
    HeadRenders(right, keyword, lbl, width - |lbl|, tw, i, k, out[..m]);
    assert |out[..m]| == 2;
    FrontPlaced(right, keyword, lbl, width, k, out);
    DocBehind(doc, width, tw, i, k, out);
  }

  lemma DocBehind(doc: Doc, width: nat, tw: int, i: Pos, k: Pos, out: seq<Tok>)
    requires tw > 0 && |out| >= 3 && !out[0].LineB? && !out[1].LineB? && out[2] == TextB(" ")
    requires After(k, out[..2]) == Pos(k.tabs, k.spaces + width)
    requires Renders(tw, Align(Group(doc)), i, Step(After(k, out[..2]), TextB(" ")), out[3..])
    ensures DocPlaced(doc, width, tw, i, k, out)
  {
    hide Renders, After;
    AlignRenders(tw, Group(doc), i, Step(After(k, out[..2]), TextB(" ")), out[3..]);
    assert out[..3] == out[..2] + [out[2]];
    AfterConcat(k, out[..2], [out[2]]);
    AfterOne(After(k, out[..2]), [out[2]]);
    assert [out[2]][..1] == [out[2]];
    assert forall l :: 0 <= l < 3 ==> !out[l].LineB?;
  }

  lemma FrontPlaced(right: bool, keyword: bool, lbl: string, width: nat, k: Pos, out: seq<Tok>)
    requires |lbl| <= width && |out| >= 2
    requires out[..2] == if right then [SpacesB(width - |lbl|), LabelTok(keyword, lbl)] else [LabelTok(keyword, lbl), SpacesB(width - |lbl|)]
    ensures LabelPlaced(right, keyword, lbl, width, k, out) && After(k, out[..2]) == Pos(k.tabs, k.spaces + width)
    ensures !out[0].LineB? && !out[1].LineB?
  {
    hide After;
    assert out[0] == out[..2][0] && out[1] == out[..2][1];
    AfterOne(k, out);
    AfterTwo(k, out);
    assert LabelAt(right, keyword, lbl, width, k, out, if right then 1 else 0);
  }

  lemma AfterOne(k: Pos, out: seq<Tok>)
    ensures After(k, out[..0]) == k
    ensures out != [] ==> After(k, out[..1]) == Step(k, out[0])
  {
    if out != [] { assert out[..1][1..] == []; }
  }

  lemma AfterTwo(k: Pos, out: seq<Tok>)
    requires |out| >= 2
    ensures After(k, out[..2]) == Step(Step(k, out[0]), out[1])
  {
    AfterOne(Step(k, out[0]), out[1..]);
    assert out[..2][0] == out[0] && out[..2][1..] == out[1..][..1];
  }

  lemma HeadRenders(right: bool, keyword: bool, s: string, pad: nat, tw: int, i: Pos, k: Pos, out: seq<Tok>)
    requires tw > 0
    ensures var t := LabelTok(keyword, s);
            Renders(tw, Head(right, keyword, s, pad), i, k, out) <==>
            out == if right then [SpacesB(pad), t] else [t, SpacesB(pad)]
  {
    var lbl, t := Label(keyword, s), LabelTok(keyword, s);
    if right {
      LeafThen(tw, Pad(pad), lbl, i, k, SpacesB(pad), out);
    } else {
      LeafThen(tw, lbl, Pad(pad), i, k, t, out);
    }
    if out != [] { assert out == [out[0]] + out[1..]; }
  }

  /** Rows that make an item. */
  function Kept(rows: seq<Row>): seq<Row> {
    if rows == [] then []
    else Kept(rows[..|rows| - 1]) + if Skipped(rows[|rows| - 1]) then [] else [rows[|rows| - 1]]
  }

  lemma {:induction false} KeptItems(right: bool, keyword: bool, width: nat, rows: seq<Row>)
    ensures var kept, aligned, nested := Kept(rows), AlignedItems(right, keyword, width, rows), NestedItems(keyword, rows);
            && |aligned| == |kept| == |nested|
            && forall n :: 0 <= n < |kept| ==>
                 !Skipped(kept[n]) && kept[n] in rows &&
                 aligned[n] == AlignedItem(right, keyword, width, kept[n]) && nested[n] == NestedItem(keyword, kept[n])
    decreases |rows|
  {
    hide AlignedItem, NestedItem, Skipped;
    if rows != [] { KeptItems(right, keyword, width, rows[..|rows| - 1]); }
  }

  lemma ItemsNotEmpty(right: bool, keyword: bool, width: nat, r: Row)
    requires !Skipped(r)
    ensures !AlignedItem(right, keyword, width, r).Nil? && !NestedItem(keyword, r).Nil?
  {
  }

  /** Row by row on lines of their own, labels and documents each in their column. */
  ghost predicate LinedUp(right: bool, keyword: bool, width: nat, rows: seq<Row>, tw: int, i: Pos, out: seq<Tok>)
    requires tw > 0
    decreases |rows|
  {
    if rows == [] then out == []
    else exists m | 0 <= m <= |out| ::
      && rows[0].doc.ADoc?
      && (rows[0].lbl != "" ==> LabelPlaced(right, keyword, rows[0].lbl, width, i, out[..m]))
      && (!rows[0].doc.doc.Nil? ==> DocPlaced(rows[0].doc.doc, width, tw, i, i, out[..m]))
      && if |rows| == 1 then m == |out|
         else m < |out| && out[m] == LineB(i) && LinedUp(right, keyword, width, rows[1..], tw, i, out[m + 1..])
  }

  lemma {:induction false} StackLinesUp(right: bool, keyword: bool, width: nat, rows: seq<Row>, items: seq<Doc>, tw: int, i: Pos, out: seq<Tok>)
    requires tw > 0 && |items| == |rows| && Stacked(tw, items, i, i, out)
    requires forall n :: 0 <= n < |rows| ==>
               !Skipped(rows[n]) && |rows[n].lbl| <= width && items[n] == AlignedItem(right, keyword, width, rows[n])
    ensures LinedUp(right, keyword, width, rows, tw, i, out)
    decreases |rows|
  {
    hide Renders, AlignedItem, LabelPlaced, DocPlaced;
    if |rows| == 1 {
      AlignedItemRenders(right, keyword, width, rows[0], tw, i, i, out);
      assert out[..|out|] == out;
    } else if |rows| > 1 {
      var m :| 0 <= m < |out| && Renders(tw, items[0], i, i, out[..m]) && out[m] == LineB(i) && Stacked(tw, items[1..], i, i, out[m + 1..]);
      AlignedItemRenders(right, keyword, width, rows[0], tw, i, i, out[..m]);
      StackLinesUp(right, keyword, width, rows[1..], items[1..], tw, i, out[m + 1..]);
    }
  }

  /** In every layout of an aligned table started at its own indentation, all labels end, or start,
      together and all documents start together, one blank behind the widest label. */
  lemma TableLinesUp(right: bool, keyword: bool, rows: seq<Row>, tw: int, i: Pos, out: seq<Tok>)
    requires tw > 0 && Renders(tw, Stack(AlignedItems(right, keyword, LeftWidth(rows), rows)), i, i, out)
    ensures LinedUp(right, keyword, LeftWidth(rows), Kept(rows), tw, i, out)
  {
    hide Renders, AlignedItem, NestedItem, LinedUp, Stacked;
    var width, kept := LeftWidth(rows), Kept(rows);
    var items := AlignedItems(right, keyword, width, rows);
    KeptItems(right, keyword, width, rows);
    forall n | 0 <= n < |kept| ensures !items[n].Nil? && |kept[n].lbl| <= width {
      ItemsNotEmpty(right, keyword, width, kept[n]);
      var j :| 0 <= j < |rows| && rows[j] == kept[n];
    }
    StackRenders(tw, items, i, i, out);
    StackLinesUp(right, keyword, width, kept, items, tw, i, out);
  }

  /** A nested section: the label, and the document below it one level deeper. */
  lemma NestedItemRenders(keyword: bool, r: Row, tw: int, i: Pos, k: Pos, out: seq<Tok>)
    requires tw > 0 && !Skipped(r)
    ensures var t, deep := LabelTok(keyword, r.lbl), Deeper(i, tw);
      Renders(tw, NestedItem(keyword, r), i, k, out) <==>
        if r.lbl == "" then Renders(tw, Group(r.doc.doc), i, k, out)
        else if r.doc.doc.Nil? then out == [t]
        else |out| >= 2 && out[0] == t && out[1] == LineB(deep) && Renders(tw, Group(r.doc.doc), deep, deep, out[2..])
  {
    if r.lbl != "" && !r.doc.doc.Nil? {
      var t, lbl, g := LabelTok(keyword, r.lbl), Label(keyword, r.lbl), Group(r.doc.doc);
      LeafThen(tw, lbl, NestT(Concat(Line, g)), i, k, t, out);
      if out != [] {
        BrokenRenders(tw, g, i, Step(k, t), out[1..]);
        if |out| >= 2 { assert out[1..][0] == out[1] && out[1..][1..] == out[2..]; }
      }
    }
  }

  /** A table is on one line, or aligned if it is asked for, or in nested sections. */
  lemma TableRenders(alignment: TableAlignment, keyword: bool, rows: seq<Row>, tw: int, i: Pos, k: Pos, out: seq<Tok>)
    requires tw > 0 && RowsCoherent(rows)
    ensures Renders(tw, TableDoc(alignment, keyword, rows), i, k, out) ==>
      || (OnlyText(out) && Written(false, 1, out) == FlatText(TableDoc(alignment, keyword, rows)))
      || (!alignment.NoAlign? && Renders(tw, Stack(AlignedItems(alignment.RightAlignFirst?, keyword, LeftWidth(rows), rows)), i, k, out))
      || Stacked(tw, NestedItems(keyword, rows), i, k, out)
    ensures !alignment.NoAlign? && Renders(tw, Stack(AlignedItems(alignment.RightAlignFirst?, keyword, LeftWidth(rows), rows)), i, k, out) ==>
      Renders(tw, TableDoc(alignment, keyword, rows), i, k, out)
    ensures Stacked(tw, NestedItems(keyword, rows), i, k, out) ==> Renders(tw, TableDoc(alignment, keyword, rows), i, k, out)
  {
    hide AlignedItem, NestedItem, Stacked, Stack;
    var aligned, nested := AlignedItems(alignment.RightAlignFirst?, keyword, LeftWidth(rows), rows), NestedItems(keyword, rows);
    var d := if alignment.NoAlign? then Stack(nested) else Union(Stack(aligned), Stack(nested));
    KeptItems(alignment.RightAlignFirst?, keyword, LeftWidth(rows), rows);
    forall n | 0 <= n < |nested| ensures !nested[n].Nil? { ItemsNotEmpty(false, keyword, 0, Kept(rows)[n]); }
    StackRenders(tw, nested, i, k, out);
    GroupRenders(tw, d, i, k, out);
    TableKeeps(alignment, keyword, rows);
    if Renders(tw, Flatten(d), i, k, out) { FlatOfGroup(tw, d, i, k, out); }
  }

  // ------------------------------------------------- what a table says

  /** Labels and documents of the rows that have one, one behind the other. */
  function RowsText(rows: seq<Row>): string {
    if rows == [] then ""
    else
      var r := rows[|rows| - 1];
      RowsText(rows[..|rows| - 1]) + if r.doc.ADoc? then r.lbl + FlatText(r.doc.doc) else ""
  }

  /** The non-blank characters of documents one behind the other. */
  function Said(ds: seq<Doc>): string {
    if ds == [] then "" else NonBlank(FlatText(ds[0])) + Said(ds[1..])
  }

  lemma {:induction false} SaidSnoc(ds: seq<Doc>, d: Doc)
    ensures Said(ds + [d]) == Said(ds) + NonBlank(FlatText(d))
  {
    if ds == [] {
      assert ds + [d] == [d] && [d][1..] == [];
    } else {
      assert (ds + [d])[1..] == ds[1..] + [d];
      SaidSnoc(ds[1..], d);
    }
  }

  lemma TextConcat(a: Doc, b: Doc)
    ensures FlatText(Concat(a, b)) == FlatText(a) + FlatText(b)
  {
    if a.Nil? { assert "" + FlatText(b) == FlatText(b); }
  }

  lemma LineSays(a: Doc, b: Doc)
    ensures NonBlank(FlatText(ConcatLine(a, b))) == NonBlank(FlatText(a)) + NonBlank(FlatText(b))
  {
    TextConcat(Line, b);
    TextConcat(a, Concat(Line, b));
    NonBlankConcat(FlatText(a), " " + FlatText(b));
    NonBlankSpace(FlatText(b));
    assert NonBlank("") == "";
  }

  lemma {:induction false} StackSays(ds: seq<Doc>)
    ensures NonBlank(FlatText(Stack(ds))) == Said(ds)
    decreases |ds|
  {
    hide NonBlank, FlatText;
    if ds == [] {
      NothingSaid();
    } else if |ds| == 1 {
      assert Said(ds[1..]) == "";
    } else {
      LineSays(ds[0], Stack(ds[1..]));
      StackSays(ds[1..]);
    }
  }

  lemma SaidNothing(s: string)
    ensures s + "" == s
  {
  }

  lemma NothingSaid()
    ensures FlatText(Nil) == "" && NonBlank("") == ""
  {
  }

  lemma SectionSays(keyword: bool, r: Row)
    requires r.doc.ADoc?
    ensures NonBlank(FlatText(NestedItem(keyword, r))) == NonBlank(r.lbl + FlatText(r.doc.doc))
  {
    var lbl, d := Label(keyword, r.lbl), r.doc.doc;
    GroupKeeps(d);
    NonBlankConcat(r.lbl, FlatText(d));
    if r.lbl == "" {
      assert "" + FlatText(d) == FlatText(d);
    } else if d.Nil? {
      assert r.lbl + "" == r.lbl;
    } else {
      TextConcat(Line, Group(d));
      TextConcat(lbl, NestT(Concat(Line, Group(d))));
      NonBlankConcat(r.lbl, " " + FlatText(d));
      NonBlankSpace(FlatText(d));
    }
  }

  lemma {:induction false} SectionsSay(keyword: bool, rows: seq<Row>)
    ensures Said(NestedItems(keyword, rows)) == NonBlank(RowsText(rows))
    decreases |rows|
  {
    hide NestedItem, FlatText, NonBlank;
    if rows == [] {
      NothingSaid();
    } else {
      var r, before := rows[|rows| - 1], rows[..|rows| - 1];
      SectionsSay(keyword, before);
      var text := if r.doc.ADoc? then r.lbl + FlatText(r.doc.doc) else "";
      NonBlankConcat(RowsText(before), text);
      NothingSaid();
      if Skipped(r) {
        if r.doc.ADoc? { assert r.doc.doc == Nil && |text| == |r.lbl| + |FlatText(Nil)|; }
        assert text == "";
        assert NestedItems(keyword, rows) == NestedItems(keyword, before);
        SaidNothing(NonBlank(RowsText(before)));
      } else {
        SectionSays(keyword, r);
        SaidSnoc(NestedItems(keyword, before), NestedItem(keyword, r));
      }
    }
  }

  /** In either form a table says all of its rows, in order, and nothing else. */
  lemma TableSays(alignment: TableAlignment, keyword: bool, rows: seq<Row>)
    requires RowsCoherent(rows)
    ensures NonBlank(FlatText(TableDoc(alignment, keyword, rows))) == NonBlank(RowsText(rows))
    ensures NonBlank(FlatText(Stack(AlignedItems(alignment.RightAlignFirst?, keyword, LeftWidth(rows), rows)))) == NonBlank(RowsText(rows))
  {
    hide NonBlank, FlatText, RowsText, Stack;
    TableKeeps(alignment, keyword, rows);
    StackSays(NestedItems(keyword, rows));
    SectionsSay(keyword, rows);
  }
}
