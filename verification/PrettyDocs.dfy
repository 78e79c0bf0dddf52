/** Pretty-printer documents and their constructors (pkg/util/pretty/document.go and util.go). */
module PrettyDocs {

  /** Functions of the column or of the nesting appear first-order: Align is the scolumn that
      Align builds, AlignAt the snesting inside it, and ByNesting the snesting of
      JoinNestedOuter, which picks one of two documents by comparing the nesting to a limit. */
  datatype Doc =
    | Nil
    | Text(s: string)
    | Keyword(s: string)
    | Line
    | SoftBreak
    | Cat(a: Doc, b: Doc)
    | NestS(n: int, d: Doc)
    | NestT(d: Doc)
    | Union(x: Doc, y: Doc)
    | Pad(n: int)
    | Align(d: Doc)
    | AlignAt(col: int, d: Doc)
    | ByNesting(limit: int, near: Doc, far: Doc)

  // ------------------------------------------------- constructors

  function Concat(a: Doc, b: Doc): Doc {
    if a.Nil? then b else if b.Nil? then a else Cat(a, b)
  }

  function ConcatLine(a: Doc, b: Doc): Doc {
    if a.Nil? then b else if b.Nil? then a else Concat(a, Concat(Line, b))
  }

  function ConcatSpace(a: Doc, b: Doc): Doc {
    if a.Nil? then b else if b.Nil? then a else Concat(a, Concat(Text(" "), b))
  }

  function Flatten(d: Doc): Doc {
    match d
    case Nil => Nil
    case Text(_) => d
    case Keyword(_) => d
    case Line => Text(" ")
    case SoftBreak => Nil
    case Cat(a, b) => Concat(Flatten(a), Flatten(b))
    case NestS(n, e) => NestS(n, Flatten(e))
    case NestT(e) => NestT(Flatten(e))
    case Union(x, _) => Flatten(x)
    case Pad(_) => Nil
    case Align(e) => Align(Flatten(e))
    case AlignAt(c, e) => AlignAt(c, Flatten(e))
    case ByNesting(limit, near, far) => ByNesting(limit, Flatten(near), Flatten(far))
  }

  function Group(d: Doc): Doc {
    Union(Flatten(d), d)
  }

  function NestUnder(head: Doc, nested: Doc): Doc {
    Group(Concat(head, NestT(Concat(Line, Group(nested)))))
  }

  function AlignUnder(head: Doc, nested: Doc): Doc {
    var g := Group(nested);
    Group(Union(ConcatSpace(head, Align(g)), Concat(head, NestT(Concat(Line, g)))))
  }

  /** Stack: Fold with ConcatLine. */
  function Stack(ds: seq<Doc>): Doc {
    if ds == [] then Nil else if |ds| == 1 then ds[0] else ConcatLine(ds[0], Stack(ds[1..]))
  }

  function RightItem(sep: Doc, a: Doc): Doc {
    Concat(Line, ConcatSpace(sep, NestT(Group(a))))
  }

  function OuterItem(sep: Doc, a: Doc): Doc {
    Concat(Line, ConcatSpace(sep, Align(Group(a))))
  }

  /** The items of JoinNestedRight and of JoinNestedOuter: FoldMap with Concat. */
  function Items(sep: Doc, outer: bool, ds: seq<Doc>): Doc {
    if ds == [] then Nil
    else
      var first := if outer then OuterItem(sep, ds[0]) else RightItem(sep, ds[0]);
      if |ds| == 1 then first else Concat(first, Items(sep, outer, ds[1..]))
  }

  function JoinNestedRight(sep: Doc, ds: seq<Doc>): Doc {
    if ds == [] then Nil else if |ds| == 1 then ds[0] else Concat(ds[0], Items(sep, false, ds[1..]))
  }

  /** docFn is Text or Keyword. */
  function Label(keyword: bool, s: string): Doc {
    if keyword then Keyword(s) else Text(s)
  }

  /** JoinNestedOuter reads its first document when there is room, so there has to be one. */
  function JoinNestedOuter(lbl: string, keyword: bool, ds: seq<Doc>): Doc
    requires ds != []
  {
    var sep := Label(keyword, lbl);
    ByNesting(|lbl| + 1, JoinNestedRight(sep, ds), Concat(ds[0], NestS(-|lbl| - 1, Items(sep, true, ds[1..]))))
  }

  // ------------------------------------------------- the text of a document

  /** The text of the document on one line. */
  function FlatText(d: Doc): string {
    match d
    case Nil => ""
    case Text(s) => s
    case Keyword(s) => s
    case Line => " "
    case SoftBreak => ""
    case Cat(a, b) => FlatText(a) + FlatText(b)
    case NestS(_, e) => FlatText(e)
    case NestT(e) => FlatText(e)
    case Union(x, _) => FlatText(x)
    case Pad(_) => ""
    case Align(e) => FlatText(e)
    case AlignAt(_, e) => FlatText(e)
    case ByNesting(_, near, _) => FlatText(near)
  }

  predicate Blank(c: char) {
    c == ' ' || c == '\n' || c == '\t'
  }

  function NonBlank(s: string): string {
    if s == "" then "" else (if Blank(s[0]) then "" else [s[0]]) + NonBlank(s[1..])
  }

  lemma {:induction false} NonBlankConcat(s: string, t: string)
    ensures NonBlank(s + t) == NonBlank(s) + NonBlank(t)
  {
    if s == "" {
      assert s + t == t;
    } else {
      assert (s + t)[1..] == s[1..] + t;
      NonBlankConcat(s[1..], t);
    }
  }

  /** Both sides of every choice say the same thing: a union's sides up to blanks, and the
      documents picked by nesting exactly. */
  predicate Coherent(d: Doc) {
    match d
    case Cat(a, b) => Coherent(a) && Coherent(b)
    case NestS(_, e) => Coherent(e)
    case NestT(e) => Coherent(e)
    case Union(x, y) => Coherent(x) && Coherent(y) && NonBlank(FlatText(x)) == NonBlank(FlatText(y))
    case Align(e) => Coherent(e)
    case AlignAt(_, e) => Coherent(e)
    case ByNesting(_, near, far) => Coherent(near) && Coherent(far) && FlatText(near) == FlatText(far)
    case _ => true
  }

  lemma ConcatKeeps(a: Doc, b: Doc)
    ensures FlatText(Concat(a, b)) == FlatText(a) + FlatText(b)
    ensures Coherent(a) && Coherent(b) ==> Coherent(Concat(a, b))
  {
  }

  lemma WrapKeeps(d: Doc)
    ensures FlatText(NestT(d)) == FlatText(d) && (Coherent(d) ==> Coherent(NestT(d)))
    ensures FlatText(Align(d)) == FlatText(d) && (Coherent(d) ==> Coherent(Align(d)))
  {
  }

  lemma LeafKeeps()
    ensures Coherent(Line) && FlatText(Line) == " " && Coherent(Text(" ")) && FlatText(Text(" ")) == " "
    ensures Coherent(Nil) && FlatText(Nil) == ""
  {
  }

  lemma PadKeeps(n: int, s: string, keyword: bool)
    ensures Coherent(Pad(n)) && FlatText(Pad(n)) == ""
    ensures Coherent(Label(keyword, s)) && FlatText(Label(keyword, s)) == s
  {
  }

  /** Flattening does not change the one-line text, and keeps the choices coherent. */
  lemma {:induction false} FlattenKeeps(d: Doc)
    ensures FlatText(Flatten(d)) == FlatText(d)
    ensures Coherent(d) ==> Coherent(Flatten(d))
  {
    match d
    case Cat(a, b) => FlattenKeeps(a); FlattenKeeps(b); ConcatKeeps(Flatten(a), Flatten(b));
    case NestS(_, e) => FlattenKeeps(e);
    case NestT(e) => FlattenKeeps(e);
    case Union(x, _) => FlattenKeeps(x);
    case Align(e) => FlattenKeeps(e);
    case AlignAt(_, e) => FlattenKeeps(e);
    case ByNesting(_, near, far) => FlattenKeeps(near); FlattenKeeps(far);
    case _ =>
  }

  lemma GroupKeeps(d: Doc)
    ensures FlatText(Group(d)) == FlatText(d)
    ensures Coherent(d) ==> Coherent(Group(d))
  {
    FlattenKeeps(d);
  }

  lemma SpacedKeeps(head: Doc, tail: Doc)
    requires Coherent(head) && Coherent(tail) && !head.Nil? && !tail.Nil?
    ensures Coherent(ConcatSpace(head, tail)) && FlatText(ConcatSpace(head, tail)) == FlatText(head) + (" " + FlatText(tail))
  {
    hide Coherent, FlatText;
    LeafKeeps();
    ConcatKeeps(Text(" "), tail);
    ConcatKeeps(head, Concat(Text(" "), tail));
  }

  lemma BelowKeeps(head: Doc, tail: Doc)
    requires Coherent(head) && Coherent(tail)
    ensures var d := Concat(head, NestT(Concat(Line, tail)));
            Coherent(d) && FlatText(d) == FlatText(head) + (" " + FlatText(tail))
  {
    hide Coherent, FlatText;
    LeafKeeps();
    ConcatKeeps(Line, tail);
    WrapKeeps(Concat(Line, tail));
    ConcatKeeps(head, NestT(Concat(Line, tail)));
  }

  lemma UnionKeeps(x: Doc, y: Doc)
    requires Coherent(x) && Coherent(y) && NonBlank(FlatText(x)) == NonBlank(FlatText(y))
    ensures Coherent(Union(x, y)) && FlatText(Union(x, y)) == FlatText(x)
  {
  }

  lemma NonBlankSpace(t: string)
    ensures NonBlank(" " + t) == NonBlank(t)
  {
    assert (" " + t)[1..] == t;
  }

  /** Text and coherence of the two-way constructor; its sides agree exactly unless the head is Nil. */
  lemma AlignUnderKeeps(head: Doc, nested: Doc)
    requires Coherent(head) && Coherent(nested)
    ensures Coherent(AlignUnder(head, nested))
    ensures FlatText(AlignUnder(head, nested)) == FlatText(head) + (if head.Nil? then "" else " ") + FlatText(nested)
    ensures var u := AlignUnder(head, nested).y;
            u.Union? && (FlatText(u.x) == FlatText(u.y) <==> !head.Nil?)
  {
    hide Coherent, FlatText, NonBlank, Flatten;
    var g := Group(nested);
    var aligned, below := ConcatSpace(head, Align(g)), Concat(head, NestT(Concat(Line, g)));
    GroupKeeps(nested);
    WrapKeeps(g);
    BelowKeeps(head, g);
    LeafKeeps();
    if head.Nil? {
      NonBlankSpace(FlatText(nested));
      assert FlatText(below) == " " + FlatText(nested) && |FlatText(below)| == |FlatText(nested)| + 1;
    } else {
      SpacedKeeps(head, Align(g));
    }
    UnionKeeps(aligned, below);
    GroupKeeps(Union(aligned, below));
  }

  lemma NestUnderKeeps(head: Doc, nested: Doc)
    requires Coherent(head) && Coherent(nested)
    ensures Coherent(NestUnder(head, nested))
    ensures FlatText(NestUnder(head, nested)) == FlatText(head) + (" " + FlatText(nested))
  {
    hide Coherent, FlatText;
    GroupKeeps(nested);
    BelowKeeps(head, Group(nested));
    GroupKeeps(Concat(head, NestT(Concat(Line, Group(nested)))));
  }

  function ItemsText(lbl: string, ds: seq<Doc>): string {
    if ds == [] then "" else " " + lbl + " " + FlatText(ds[0]) + ItemsText(lbl, ds[1..])
  }

  predicate AllCoherent(ds: seq<Doc>) {
    forall i :: 0 <= i < |ds| ==> Coherent(ds[i])
  }

  lemma ItemKeeps(sep: Doc, d: Doc, outer: bool)
    requires (sep.Text? || sep.Keyword?) && Coherent(d)
    ensures var item := if outer then OuterItem(sep, d) else RightItem(sep, d);
            Coherent(item) && FlatText(item) == " " + sep.s + " " + FlatText(d)
  {
    PadKeeps(0, sep.s, sep.Keyword?);
    hide Coherent, FlatText, Flatten, Group;
    var body := if outer then Align(Group(d)) else NestT(Group(d));
    GroupKeeps(d);
    WrapKeeps(Group(d));
    SpacedKeeps(sep, body);
    LeafKeeps();
    ConcatKeeps(Line, ConcatSpace(sep, body));
    assert " " + (sep.s + (" " + FlatText(d))) == " " + sep.s + " " + FlatText(d);
  }

  lemma {:induction false} ItemsKeep(sep: Doc, outer: bool, ds: seq<Doc>)
    requires (sep.Text? || sep.Keyword?) && AllCoherent(ds)
    ensures Coherent(Items(sep, outer, ds)) && FlatText(Items(sep, outer, ds)) == ItemsText(sep.s, ds)
  {
    if ds != [] {
      ItemKeeps(sep, ds[0], outer);
      ItemsKeep(sep, outer, ds[1..]);
      if |ds| == 1 { assert ds[1..] == []; }
    }
  }

  /** However deep the nesting, JoinNestedOuter says the same text. */
  lemma JoinNestedOuterKeeps(lbl: string, keyword: bool, ds: seq<Doc>)
    requires ds != [] && AllCoherent(ds)
    ensures Coherent(JoinNestedOuter(lbl, keyword, ds))
    ensures FlatText(JoinNestedOuter(lbl, keyword, ds)) == FlatText(ds[0]) + ItemsText(lbl, ds[1..])
  {
    var sep := Label(keyword, lbl);
    ItemsKeep(sep, false, ds[1..]);
    ItemsKeep(sep, true, ds[1..]);
    ConcatKeeps(ds[0], Items(sep, false, ds[1..]));
  }

  // ------------------------------------------------- tables

  datatype OptDoc = NoDoc | ADoc(doc: Doc)
  datatype Row = Row(lbl: string, doc: OptDoc)

  /** Rows without a document, or with neither label nor text, are skipped. */
  predicate Skipped(r: Row) {
    r.doc.NoDoc? || (r.lbl == "" && r.doc.doc.Nil?)
  }

  function LeftWidth(rows: seq<Row>): (w: nat)
    ensures forall i :: 0 <= i < |rows| && rows[i].doc.ADoc? ==> |rows[i].lbl| <= w
  {
    if rows == [] then 0
    else
      var rest := LeftWidth(rows[..|rows| - 1]);
      var r := rows[|rows| - 1];
      if r.doc.ADoc? && rest < |r.lbl| then |r.lbl| else rest
  }

  function AlignedItem(leftPad: bool, keyword: bool, width: nat, r: Row): Doc
    requires r.doc.ADoc?
  {
    if r.lbl != "" then
      var lbl := Label(keyword, r.lbl);
      var pleft := if leftPad then Concat(Pad(width - |r.lbl|), lbl) else Concat(lbl, Pad(width - |r.lbl|));
      if r.doc.doc.Nil? then pleft else ConcatSpace(pleft, Align(Group(r.doc.doc)))
    else Concat(Pad(width + 1), Align(Group(r.doc.doc)))
  }

  function NestedItem(keyword: bool, r: Row): Doc
    requires r.doc.ADoc?
  {
    if r.lbl != "" then
      var lbl := Label(keyword, r.lbl);
      if r.doc.doc.Nil? then lbl else Concat(lbl, NestT(Concat(Line, Group(r.doc.doc))))
    else Group(r.doc.doc)
  }

  function AlignedItems(leftPad: bool, keyword: bool, width: nat, rows: seq<Row>): seq<Doc> {
    if rows == [] then []
    else
      var r := rows[|rows| - 1];
      AlignedItems(leftPad, keyword, width, rows[..|rows| - 1]) +
      if Skipped(r) then [] else [AlignedItem(leftPad, keyword, width, r)]
  }

  function NestedItems(keyword: bool, rows: seq<Row>): seq<Doc> {
    if rows == [] then []
    else
      var r := rows[|rows| - 1];
      NestedItems(keyword, rows[..|rows| - 1]) + if Skipped(r) then [] else [NestedItem(keyword, r)]
  }

  datatype TableAlignment = NoAlign | RightAlignFirst | LeftAlignFirst

  function TableDoc(alignment: TableAlignment, keyword: bool, rows: seq<Row>): Doc {
    var nested := Stack(NestedItems(keyword, rows));
    Group(if alignment.NoAlign? then nested
          else Union(Stack(AlignedItems(alignment.RightAlignFirst?, keyword, LeftWidth(rows), rows)), nested))
  }

  /** computeLeftColumnWidth. */
  method ComputeLeftColumnWidth(rows: seq<Row>) returns (leftWidth: nat)
    ensures leftWidth == LeftWidth(rows)
  {
    leftWidth := 0;
    for i := 0 to |rows|
      invariant leftWidth == LeftWidth(rows[..i])
    {
      assert rows[..i + 1][..i] == rows[..i];
      if rows[i].doc.NoDoc? {
      } else if leftWidth < |rows[i].lbl| {
        leftWidth := |rows[i].lbl|;
      }
    }
    assert rows[..|rows|] == rows;
  }

  /** makeAlignedTableItems. */
  method MakeAlignedTableItems(leftPad: bool, keyword: bool, rows: seq<Row>) returns (items: seq<Doc>)
    ensures items == AlignedItems(leftPad, keyword, LeftWidth(rows), rows)
  {
    var leftWidth := ComputeLeftColumnWidth(rows);
    items := [];
    for i := 0 to |rows|
      invariant items == AlignedItems(leftPad, keyword, leftWidth, rows[..i])
    {
      var r := rows[i];
      assert rows[..i + 1][..i] == rows[..i];
      if r.doc.NoDoc? || (r.lbl == "" && r.doc.doc.Nil?) {
        continue;
      }
      if r.lbl != "" {
        var lbl := Label(keyword, r.lbl);
        var pleft;
        if leftPad {
          pleft := Concat(Pad(leftWidth - |r.lbl|), lbl);
        } else {
          pleft := Concat(lbl, Pad(leftWidth - |r.lbl|));
        }
        items := items + [if r.doc.doc.Nil? then pleft else ConcatSpace(pleft, Align(Group(r.doc.doc)))];
      } else {
        items := items + [Concat(Pad(leftWidth + 1), Align(Group(r.doc.doc)))];
      }
    }
    assert rows[..|rows|] == rows;
  }

  /** makeTableNestedSections. */
  method MakeTableNestedSections(keyword: bool, rows: seq<Row>) returns (items: seq<Doc>)
    ensures items == NestedItems(keyword, rows)
  {
    items := [];
    for i := 0 to |rows|
      invariant items == NestedItems(keyword, rows[..i])
    {
      var r := rows[i];
      assert rows[..i + 1][..i] == rows[..i];
      if r.doc.NoDoc? || (r.lbl == "" && r.doc.doc.Nil?) {
        continue;
      }
      if r.lbl != "" {
        var lbl := Label(keyword, r.lbl);
        items := items + [if r.doc.doc.Nil? then lbl else Concat(lbl, NestT(Concat(Line, Group(r.doc.doc))))];
      } else {
        items := items + [Group(r.doc.doc)];
      }
    }
    assert rows[..|rows|] == rows;
  }

  method Table(alignment: TableAlignment, keyword: bool, rows: seq<Row>) returns (d: Doc)
    ensures d == TableDoc(alignment, keyword, rows)
  {
    var items := MakeTableNestedSections(keyword, rows);
    var nestedSections := Stack(items);
    var finalDoc := nestedSections;
    if alignment != NoAlign {
      items := MakeAlignedTableItems(alignment == RightAlignFirst, keyword, rows);
      var alignedTable := Stack(items);
      finalDoc := Union(alignedTable, nestedSections);
    }
    return Group(finalDoc);
  }

  predicate RowsCoherent(rows: seq<Row>) {
    forall i :: 0 <= i < |rows| && rows[i].doc.ADoc? ==> Coherent(rows[i].doc.doc)
  }

  lemma RowItemsAgree(leftPad: bool, keyword: bool, width: nat, r: Row)
    requires !Skipped(r) && Coherent(r.doc.doc) && |r.lbl| <= width
    ensures var a, n := AlignedItem(leftPad, keyword, width, r), NestedItem(keyword, r);
            Coherent(a) && Coherent(n) && FlatText(a) == FlatText(n) && !a.Nil? && !n.Nil?
  {
    hide Coherent, FlatText;
    var lbl, g := Label(keyword, r.lbl), Group(r.doc.doc);
    GroupKeeps(r.doc.doc);
    WrapKeeps(g);
    LeafKeeps();
    PadKeeps(width - |r.lbl|, r.lbl, keyword);
    PadKeeps(width + 1, r.lbl, keyword);
    ConcatKeeps(Pad(width - |r.lbl|), lbl);
    ConcatKeeps(lbl, Pad(width - |r.lbl|));
    ConcatKeeps(Pad(width + 1), Align(g));
    if r.lbl != "" && !r.doc.doc.Nil? {
      BelowKeeps(lbl, g);
      SpacedKeeps(if leftPad then Concat(Pad(width - |r.lbl|), lbl) else Concat(lbl, Pad(width - |r.lbl|)), Align(g));
    }
  }

  /** Item by item, the aligned table and the nested sections have the same text. */
  ghost predicate Agree(xs: seq<Doc>, ys: seq<Doc>) {
    |xs| == |ys| && forall i :: 0 <= i < |xs| ==>
      Coherent(xs[i]) && Coherent(ys[i]) && FlatText(xs[i]) == FlatText(ys[i]) && !xs[i].Nil? && !ys[i].Nil?
  }

  lemma {:induction false} ItemsAgree(leftPad: bool, keyword: bool, width: nat, rows: seq<Row>)
    requires RowsCoherent(rows) && forall i :: 0 <= i < |rows| && rows[i].doc.ADoc? ==> |rows[i].lbl| <= width
    ensures Agree(AlignedItems(leftPad, keyword, width, rows), NestedItems(keyword, rows))
  {
    if rows != [] {
      ItemsAgree(leftPad, keyword, width, rows[..|rows| - 1]);
      var r := rows[|rows| - 1];
      if !Skipped(r) { RowItemsAgree(leftPad, keyword, width, r); }
    }
  }

  lemma {:induction false} StacksAgree(xs: seq<Doc>, ys: seq<Doc>)
    requires Agree(xs, ys)
    ensures var a, b := Stack(xs), Stack(ys);
            Coherent(a) && Coherent(b) && FlatText(a) == FlatText(b) && (a.Nil? <==> xs == []) && (b.Nil? <==> xs == [])
  {
    if |xs| > 1 { StacksAgree(xs[1..], ys[1..]); }
  }

  /** The two forms of a table say exactly the same text, and the table offers only these. */
  lemma TableKeeps(alignment: TableAlignment, keyword: bool, rows: seq<Row>)
    requires RowsCoherent(rows)
    ensures Coherent(TableDoc(alignment, keyword, rows))
    ensures FlatText(TableDoc(alignment, keyword, rows)) == FlatText(Stack(NestedItems(keyword, rows)))
    ensures FlatText(Stack(AlignedItems(alignment.RightAlignFirst?, keyword, LeftWidth(rows), rows))) ==
            FlatText(Stack(NestedItems(keyword, rows)))
  {
    var aligned, nested := AlignedItems(alignment.RightAlignFirst?, keyword, LeftWidth(rows), rows), NestedItems(keyword, rows);
    ItemsAgree(alignment.RightAlignFirst?, keyword, LeftWidth(rows), rows);
    StacksAgree(aligned, nested);
    GroupKeeps(Stack(nested));
    GroupKeeps(Union(Stack(aligned), Stack(nested)));
  }
}
