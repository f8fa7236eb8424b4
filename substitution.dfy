/**
 * The placeholder substitution engine of the contract generator: a
 * paragraph is a list of formatted runs; its runs are joined, every
 * mapping key is replaced in mapping order, and only when the text changed
 * is the whole result put into the first run and the other runs blanked.
 * The same rewrite is applied to every paragraph of the document: the
 * body, table cells (recursively through nested tables) and each
 * section's header and footer.
 */
module Substitution {
  import opened Text

  /** Run-level formatting; the engine carries it along and never inspects it. */
  datatype Format = Format(style: string, bold: bool, italic: bool, underline: bool)

  /** The formatting of a run created by `add_run(text)`: no properties at all. */
  const DefaultFormat := Format("", false, false, false)

  /**
   * A run is its text and its formatting. Pictures, fields and footnote
   * references a run may also hold are not represented.
   */
  datatype Run = Run(text: string, format: Format)

  datatype Paragraph = Paragraph(runs: seq<Run>)

  /** Token to value, in the mapping's insertion order. */
  type Mapping = seq<(string, string)>

  /** The visible text of a run list: the run texts joined in order. */
  function JoinRuns(runs: seq<Run>): string
  {
    if runs == [] then [] else JoinRuns(runs[..|runs| - 1]) + runs[|runs| - 1].text
  }

  /** The visible text of a paragraph. */
  function VisibleText(p: Paragraph): string
  {
    JoinRuns(p.runs)
  }

  /**
   * `t` after `t = t.replace(k, v)` for each pair of `m` in order. Each
   * single replace does not re-scan its own output, but a later key is
   * looked for in text an earlier value brought in.
   */
  function ApplyMapping(t: string, m: Mapping): string
  {
    if m == [] then t
    else
      var (k, v) := m[|m| - 1];
      Replace(ApplyMapping(t, m[..|m| - 1]), k, v)
  }

  /** A text in which no key of the mapping occurs. */
  predicate NoKeyIn(t: string, m: Mapping)
  {
    forall i | 0 <= i < |m| :: !Contains(t, m[i].0)
  }

  /** A text holding none of the keys comes out of the mapping unchanged. */
  lemma {:induction false} ApplyMappingNoKey(t: string, m: Mapping)
    requires NoKeyIn(t, m)
    ensures ApplyMapping(t, m) == t
  {
    if m != [] {
      var init := m[..|m| - 1];
      assert NoKeyIn(t, init) by {
        forall i | 0 <= i < |init| ensures !Contains(t, init[i].0) {
          assert init[i] == m[i];
        }
      }
      ApplyMappingNoKey(t, init);
      ReplaceNoMatch(t, m[|m| - 1].0, m[|m| - 1].1);
    }
  }

  /** The joined text of a run list whose first run holds `t` and whose others are empty is `t`. */
  lemma {:induction false} JoinCollapsed(runs: seq<Run>, t: string)
    requires runs != [] && runs[0].text == t
    requires forall k | 1 <= k < |runs| :: runs[k].text == []
    ensures JoinRuns(runs) == t
  {
    if |runs| > 1 {
      JoinCollapsed(runs[..|runs| - 1], t);
      assert runs[..|runs| - 1][..|runs| - 2] == runs[..|runs| - 2];
    }
  }

  /**
   * What `_replace_in_paragraph` leaves in a paragraph. The visible text
   * becomes the joined text with the mapping applied; a paragraph whose
   * text does not change is returned as it was; otherwise every run keeps
   * its formatting, the first run takes the whole new text and the others
   * are emptied, and a paragraph without runs gains one plain run.
   */
  function Rewrite(p: Paragraph, m: Mapping): (q: Paragraph)
    ensures VisibleText(q) == ApplyMapping(VisibleText(p), m)
    ensures ApplyMapping(VisibleText(p), m) == VisibleText(p) ==> q == p
    ensures ApplyMapping(VisibleText(p), m) != VisibleText(p) && p.runs != [] ==>
              |q.runs| == |p.runs|
              && q.runs[0].text == ApplyMapping(VisibleText(p), m)
              && (forall k | 1 <= k < |q.runs| :: q.runs[k].text == [])
              && (forall k | 0 <= k < |q.runs| :: q.runs[k].format == p.runs[k].format)
    ensures p.runs == [] && ApplyMapping(VisibleText(p), m) != [] ==>
              q.runs == [Run(ApplyMapping(VisibleText(p), m), DefaultFormat)]
  {
    var full := VisibleText(p);
    var replaced := ApplyMapping(full, m);
    if replaced == full then p
    else if p.runs == [] then
      assert full == [];
      var q := Paragraph([Run(replaced, DefaultFormat)]);
      assert JoinRuns(q.runs) == JoinRuns([]) + replaced;
      q
    else
      var runs := seq(|p.runs|, k requires 0 <= k < |p.runs| =>
                        p.runs[k].(text := if k == 0 then replaced else []));
      JoinCollapsed(runs, replaced);
      Paragraph(runs)
  }

  /** A paragraph whose joined text holds no mapping key keeps its runs exactly. */
  lemma NoKeyParagraphUntouched(p: Paragraph, m: Mapping)
    requires NoKeyIn(VisibleText(p), m)
    ensures Rewrite(p, m) == p
  {
    ApplyMappingNoKey(VisibleText(p), m);
  }

  /** One key whose value differs from it rewrites the paragraph exactly when the key occurs. */
  lemma SingleKeyRewritesIff(p: Paragraph, k: string, v: string)
    requires v != k
    ensures Rewrite(p, [(k, v)]) != p <==> Contains(VisibleText(p), k)
  {
    var m := [(k, v)];
    assert m[..0] == [];
    assert ApplyMapping(VisibleText(p), m) == Replace(VisibleText(p), k, v);
    ReplaceUnchangedIff(VisibleText(p), k, v);
    if Rewrite(p, m) == p {
      assert VisibleText(Rewrite(p, m)) == VisibleText(p);
    }
  }

  /**
   * `_replace_in_paragraph`: joins the runs, applies each key in order,
   * and, only when the text changed, blanks every run from the last to the
   * first and puts the result into run 0 (or appends a run when there is none).
   */
  method ReplaceInParagraph(p: Paragraph, m: Mapping) returns (q: Paragraph)
    ensures q == Rewrite(p, m)
  {
    var full := JoinRuns(p.runs);
    var replaced := full;
    var i := 0;
    while i < |m|
      invariant 0 <= i <= |m|
      invariant replaced == ApplyMapping(full, m[..i])
    {
      var (k, v) := m[i];
      assert m[..i + 1][..i] == m[..i];
      replaced := Replace(replaced, k, v);
      i := i + 1;
    }
    assert m[..|m|] == m;
    var runs := p.runs;
    if replaced != full {
      var j := |runs|;
      while j > 0
        invariant 0 <= j <= |runs| == |p.runs|
        invariant forall k | 0 <= k < |runs| ::
                    runs[k] == if k < j then p.runs[k] else p.runs[k].(text := [])
      {
        j := j - 1;
        runs := runs[j := runs[j].(text := [])];
      }
      if |runs| > 0 {
        runs := runs[0 := runs[0].(text := replaced)];
      } else {
        runs := runs + [Run(replaced, DefaultFormat)];
      }
    }
    q := Paragraph(runs);
  }

  /** Runs `"{{na"` and `"me}}"` hold a split token, and it is still replaced. */
  lemma SplitTokenReplaced(f: Format, g: Format)
    ensures Rewrite(Paragraph([Run("{{na", f), Run("me}}", g)]), [("{{name}}", "Ali")])
            == Paragraph([Run("Ali", f), Run("", g)])
  {
    var p := Paragraph([Run("{{na", f), Run("me}}", g)]);
    var m := [("{{name}}", "Ali")];
    assert m[..0] == [];
    assert VisibleText(p) == "{{name}}" by {
      assert p.runs[..1] == [Run("{{na", f)];
      assert p.runs[..1][..0] == [];
      assert JoinRuns(p.runs[..1]) == "{{na";
      assert "{{na" + "me}}" == "{{name}}";
    }
    ReplaceAtFront("{{name}}", "", "Ali");
    assert "{{name}}" + "" == "{{name}}";
    assert ApplyMapping(VisibleText(p), m) == "Ali";
  }

  /**
   * The engine re-scans the output of an earlier key when it applies a
   * later one: a value that is itself a later token gets replaced too, so
   * mapping order matters.
   */
  lemma LaterKeySeesEarlierValue()
    ensures ApplyMapping("{{name}}", [("{{name}}", "{{id}}"), ("{{id}}", "7")]) == "7"
    ensures ApplyMapping("{{name}}", [("{{id}}", "7"), ("{{name}}", "{{id}}")]) == "{{id}}"
  {
    var name, id := "{{name}}", "{{id}}";
    var m1 := [(name, id), (id, "7")];
    var m2 := [(id, "7"), (name, id)];
    assert m1[..1] == [(name, id)] && m1[..1][..0] == [];
    assert m2[..1] == [(id, "7")] && m2[..1][..0] == [];
    ReplaceAtFront(name, "", id);
    ReplaceAtFront(id, "", "7");
    assert name + "" == name && id + "" == id;
    ReplaceNoMatch(name, id, "7") by {
      forall i: nat | i <= |name| ensures !OccursAt(name, id, i) {
        assert name[2] == 'n' && name[3] == 'a' && name[4] == 'm';
        if i + |id| <= |name| {
          assert name[i..i + |id|][2] == name[i + 2] != id[2];
        }
      }
    }
  }

  // ---------------------------------------------------------------------
  // The document tree
  // ---------------------------------------------------------------------

  datatype Table = Table(rows: seq<Row>)

  datatype Row = Row(cells: seq<Blocks>)

  /**
   * A block container: a table cell, the document body, a header or a
   * footer. It holds paragraphs and tables.
   */
  datatype Blocks = Blocks(paragraphs: seq<Paragraph>, tables: seq<Table>)

  datatype Section = Section(header: Blocks, footer: Blocks)

  /** Every paragraph of a list rewritten. */
  function RewriteAll(ps: seq<Paragraph>, m: Mapping): (r: seq<Paragraph>)
    ensures |r| == |ps|
  {
    seq(|ps|, i requires 0 <= i < |ps| => Rewrite(ps[i], m))
  }

  /** The table after `_replace_in_table`. */
  function RewriteTable(t: Table, m: Mapping): Table
    decreases t, 2
  {
    Table(seq(|t.rows|, i requires 0 <= i < |t.rows| => RewriteRow(t.rows[i], m)))
  }

  function RewriteRow(row: Row, m: Mapping): Row
    decreases row, 1
  {
    Row(seq(|row.cells|, j requires 0 <= j < |row.cells| => RewriteBlocks(row.cells[j], m)))
  }

  /** A container after its paragraphs and then its tables are processed. */
  function RewriteBlocks(b: Blocks, m: Mapping): Blocks
    decreases b, 0
  {
    Blocks(RewriteAll(b.paragraphs, m),
           seq(|b.tables|, k requires 0 <= k < |b.tables| => RewriteTable(b.tables[k], m)))
  }

  function RewriteSection(s: Section, m: Mapping): Section
  {
    Section(RewriteBlocks(s.header, m), RewriteBlocks(s.footer, m))
  }

  function RewriteSections(ss: seq<Section>, m: Mapping): seq<Section>
  {
    seq(|ss|, i requires 0 <= i < |ss| => RewriteSection(ss[i], m))
  }

  /** Concatenation of a list of lists. */
  function Flatten(xss: seq<seq<Paragraph>>): seq<Paragraph>
  {
    if xss == [] then [] else xss[0] + Flatten(xss[1..])
  }

  /** The paragraphs of a table, row by row, in traversal order. */
  function TableParagraphs(t: Table): seq<Paragraph>
    decreases t, 2
  {
    Flatten(seq(|t.rows|, i requires 0 <= i < |t.rows| => RowParagraphs(t.rows[i])))
  }

  /** The paragraphs of a row, cell by cell. */
  function RowParagraphs(row: Row): seq<Paragraph>
    decreases row, 1
  {
    Flatten(seq(|row.cells|, j requires 0 <= j < |row.cells| => BlocksParagraphs(row.cells[j])))
  }

  /** The paragraphs of a container: its own, then those of its tables. */
  function BlocksParagraphs(b: Blocks): seq<Paragraph>
    decreases b, 0
  {
    b.paragraphs + Flatten(seq(|b.tables|, k requires 0 <= k < |b.tables| => TableParagraphs(b.tables[k])))
  }

  /** The paragraphs of one section: its header's, then its footer's. */
  function SectionParagraphs(s: Section): seq<Paragraph>
  {
    BlocksParagraphs(s.header) + BlocksParagraphs(s.footer)
  }

  /** The paragraphs of all headers and footers, section by section. */
  function SectionsParagraphs(ss: seq<Section>): seq<Paragraph>
  {
    Flatten(seq(|ss|, i requires 0 <= i < |ss| => SectionParagraphs(ss[i])))
  }

  /** A paragraph with its runs removed: what is left is the tree's shape. */
  const Hole := Paragraph([])

  /** The table with every paragraph replaced by `Hole`. */
  function TableShape(t: Table): Table
    decreases t, 2
  {
    Table(seq(|t.rows|, i requires 0 <= i < |t.rows| => RowShape(t.rows[i])))
  }

  function RowShape(row: Row): Row
    decreases row, 1
  {
    Row(seq(|row.cells|, j requires 0 <= j < |row.cells| => BlocksShape(row.cells[j])))
  }

  function BlocksShape(b: Blocks): Blocks
    decreases b, 0
  {
    Blocks(seq(|b.paragraphs|, i requires 0 <= i < |b.paragraphs| => Hole),
           seq(|b.tables|, k requires 0 <= k < |b.tables| => TableShape(b.tables[k])))
  }

  function SectionShape(s: Section): Section
  {
    Section(BlocksShape(s.header), BlocksShape(s.footer))
  }

  function SectionsShape(ss: seq<Section>): seq<Section>
  {
    seq(|ss|, i requires 0 <= i < |ss| => SectionShape(ss[i]))
  }

  lemma RewriteAllAppend(a: seq<Paragraph>, b: seq<Paragraph>, m: Mapping)
    ensures RewriteAll(a + b, m) == RewriteAll(a, m) + RewriteAll(b, m)
  {
  }

  /** Rewriting commutes with concatenating lists of paragraphs. */
  lemma {:induction false} FlattenRewrite(xss: seq<seq<Paragraph>>, yss: seq<seq<Paragraph>>, m: Mapping)
    requires |xss| == |yss|
    requires forall i | 0 <= i < |xss| :: yss[i] == RewriteAll(xss[i], m)
    ensures Flatten(yss) == RewriteAll(Flatten(xss), m)
  {
    if xss != [] {
      FlattenRewrite(xss[1..], yss[1..], m);
      RewriteAllAppend(xss[0], Flatten(xss[1..]), m);
    }
  }

  /**
   * Every paragraph of a table, at any depth of nesting, is rewritten, in
   * traversal order, and no paragraph is added or lost.
   */
  lemma {:induction false} TableParagraphsRewritten(t: Table, m: Mapping)
    ensures TableParagraphs(RewriteTable(t, m)) == RewriteAll(TableParagraphs(t), m)
    decreases t, 2
  {
    var r := RewriteTable(t, m);
    var before := seq(|t.rows|, i requires 0 <= i < |t.rows| => RowParagraphs(t.rows[i]));
    var after := seq(|r.rows|, i requires 0 <= i < |r.rows| => RowParagraphs(r.rows[i]));
    forall i | 0 <= i < |t.rows| ensures after[i] == RewriteAll(before[i], m) {
      RowParagraphsRewritten(t.rows[i], m);
    }
    FlattenRewrite(before, after, m);
  }

  lemma {:induction false} RowParagraphsRewritten(row: Row, m: Mapping)
    ensures RowParagraphs(RewriteRow(row, m)) == RewriteAll(RowParagraphs(row), m)
    decreases row, 1
  {
    var r := RewriteRow(row, m);
    var before := seq(|row.cells|, j requires 0 <= j < |row.cells| => BlocksParagraphs(row.cells[j]));
    var after := seq(|r.cells|, j requires 0 <= j < |r.cells| => BlocksParagraphs(r.cells[j]));
    forall j | 0 <= j < |row.cells| ensures after[j] == RewriteAll(before[j], m) {
      BlocksParagraphsRewritten(row.cells[j], m);
    }
    FlattenRewrite(before, after, m);
  }

  /** Every paragraph of a container, its own and those of its tables, is rewritten. */
  lemma {:induction false} BlocksParagraphsRewritten(b: Blocks, m: Mapping)
    ensures BlocksParagraphs(RewriteBlocks(b, m)) == RewriteAll(BlocksParagraphs(b), m)
    decreases b, 0
  {
    var r := RewriteBlocks(b, m);
    var before := seq(|b.tables|, k requires 0 <= k < |b.tables| => TableParagraphs(b.tables[k]));
    var after := seq(|r.tables|, k requires 0 <= k < |r.tables| => TableParagraphs(r.tables[k]));
    forall k | 0 <= k < |b.tables| ensures after[k] == RewriteAll(before[k], m) {
      TableParagraphsRewritten(b.tables[k], m);
    }
    FlattenRewrite(before, after, m);
    RewriteAllAppend(b.paragraphs, Flatten(before), m);
  }

  /** Every header and footer paragraph of every section is rewritten. */
  lemma SectionsParagraphsRewritten(ss: seq<Section>, m: Mapping)
    ensures SectionsParagraphs(RewriteSections(ss, m)) == RewriteAll(SectionsParagraphs(ss), m)
  {
    var r := RewriteSections(ss, m);
    var before := seq(|ss|, i requires 0 <= i < |ss| => SectionParagraphs(ss[i]));
    var after := seq(|r|, i requires 0 <= i < |r| => SectionParagraphs(r[i]));
    forall i | 0 <= i < |ss| ensures after[i] == RewriteAll(before[i], m) {
      BlocksParagraphsRewritten(ss[i].header, m);
      BlocksParagraphsRewritten(ss[i].footer, m);
      RewriteAllAppend(BlocksParagraphs(ss[i].header), BlocksParagraphs(ss[i].footer), m);
    }
    FlattenRewrite(before, after, m);
  }

  /** Rewriting changes no table, row, cell or paragraph slot: only paragraph contents. */
  lemma {:induction false} TableShapeKept(t: Table, m: Mapping)
    ensures TableShape(RewriteTable(t, m)) == TableShape(t)
    decreases t, 2
  {
    var r := RewriteTable(t, m);
    forall i | 0 <= i < |t.rows| ensures RowShape(r.rows[i]) == RowShape(t.rows[i]) {
      RowShapeKept(t.rows[i], m);
    }
    assert TableShape(r).rows == TableShape(t).rows;
  }

  lemma {:induction false} RowShapeKept(row: Row, m: Mapping)
    ensures RowShape(RewriteRow(row, m)) == RowShape(row)
    decreases row, 1
  {
    var r := RewriteRow(row, m);
    forall j | 0 <= j < |row.cells| ensures BlocksShape(r.cells[j]) == BlocksShape(row.cells[j]) {
      BlocksShapeKept(row.cells[j], m);
    }
    assert RowShape(r).cells == RowShape(row).cells;
  }

  lemma {:induction false} BlocksShapeKept(b: Blocks, m: Mapping)
    ensures BlocksShape(RewriteBlocks(b, m)) == BlocksShape(b)
    decreases b, 0
  {
    var r := RewriteBlocks(b, m);
    forall k | 0 <= k < |b.tables| ensures TableShape(r.tables[k]) == TableShape(b.tables[k]) {
      TableShapeKept(b.tables[k], m);
    }
    assert BlocksShape(r).tables == BlocksShape(b).tables;
  }

  lemma SectionsShapeKept(ss: seq<Section>, m: Mapping)
    ensures SectionsShape(RewriteSections(ss, m)) == SectionsShape(ss)
  {
    forall i | 0 <= i < |ss| ensures SectionShape(RewriteSection(ss[i], m)) == SectionShape(ss[i]) {
      BlocksShapeKept(ss[i].header, m);
      BlocksShapeKept(ss[i].footer, m);
    }
  }

  /**
   * `_replace_in_table`: for each row, for each cell, the cell's
   * paragraphs and then its nested tables.
   */
  method ReplaceInTable(t: Table, m: Mapping) returns (r: Table)
    ensures r == RewriteTable(t, m)
    decreases t, 2
  {
    var rows := t.rows;
    var i := 0;
    while i < |rows|
      invariant 0 <= i <= |rows| == |t.rows|
      invariant forall k | 0 <= k < |rows| :: rows[k] == if k < i then RewriteRow(t.rows[k], m) else t.rows[k]
    {
      var cells := t.rows[i].cells;
      var j := 0;
      while j < |cells|
        invariant 0 <= j <= |cells| == |t.rows[i].cells|
        invariant forall k | 0 <= k < |cells| ::
                    cells[k] == if k < j then RewriteBlocks(t.rows[i].cells[k], m) else t.rows[i].cells[k]
      {
        var c := ReplaceInBlocks(t.rows[i].cells[j], m);
        cells := cells[j := c];
        j := j + 1;
      }
      rows := rows[i := Row(cells)];
      i := i + 1;
    }
    r := Table(rows);
  }

  /**
   * The loop pair `for p in X.paragraphs` / `for t in X.tables` that the
   * engine runs on a cell, on the body, and on each header and footer.
   */
  method ReplaceInBlocks(b: Blocks, m: Mapping) returns (r: Blocks)
    ensures r == RewriteBlocks(b, m)
    decreases b, 0
  {
    var ps := b.paragraphs;
    var i := 0;
    while i < |ps|
      invariant 0 <= i <= |ps| == |b.paragraphs|
      invariant forall k | 0 <= k < |ps| :: ps[k] == if k < i then Rewrite(b.paragraphs[k], m) else b.paragraphs[k]
    {
      var q := ReplaceInParagraph(b.paragraphs[i], m);
      ps := ps[i := q];
      i := i + 1;
    }
    var ts := b.tables;
    var k := 0;
    while k < |ts|
      invariant 0 <= k <= |ts| == |b.tables|
      invariant forall j | 0 <= j < |ts| :: ts[j] == if j < k then RewriteTable(b.tables[j], m) else b.tables[j]
    {
      var t := ReplaceInTable(b.tables[k], m);
      ts := ts[k := t];
      k := k + 1;
    }
    r := Blocks(ps, ts);
  }

  /** A document: its body and its sections, each with a header and a footer. */
  class Document {
    var body: Blocks
    var sections: seq<Section>

    constructor (body: Blocks, sections: seq<Section>)
      ensures this.body == body && this.sections == sections
    {
      this.body := body;
      this.sections := sections;
    }

    /** Every paragraph of the document, in the order the engine visits them. */
    function Paragraphs(): seq<Paragraph>
      reads this
    {
      BlocksParagraphs(body) + SectionsParagraphs(sections)
    }

    /** The document with every paragraph emptied: its structure. */
    function Shape(): (Blocks, seq<Section>)
      reads this
    {
      (BlocksShape(body), SectionsShape(sections))
    }

    /**
     * `replace_everywhere`: the body's paragraphs and tables, then each
     * section's header and footer. Every paragraph is rewritten, in
     * traversal order, and the tree of tables, rows, cells and sections
     * keeps its shape.
     */
    method ReplaceEverywhere(m: Mapping)
      modifies this
      ensures body == RewriteBlocks(old(body), m)
      ensures sections == RewriteSections(old(sections), m)
      ensures Paragraphs() == RewriteAll(old(Paragraphs()), m)
      ensures Shape() == old(Shape())
    {
      body := ReplaceInBlocks(body, m);
      var i := 0;
      while i < |sections|
        invariant 0 <= i <= |sections| == |old(sections)|
        invariant body == RewriteBlocks(old(body), m)
        invariant forall k | 0 <= k < |sections| ::
                    sections[k] == if k < i then RewriteSection(old(sections)[k], m) else old(sections)[k]
      {
        var header := ReplaceInBlocks(sections[i].header, m);
        var footer := ReplaceInBlocks(sections[i].footer, m);
        sections := sections[i := Section(header, footer)];
        i := i + 1;
      }
      BlocksParagraphsRewritten(old(body), m);
      SectionsParagraphsRewritten(old(sections), m);
      RewriteAllAppend(BlocksParagraphs(old(body)), SectionsParagraphs(old(sections)), m);
      BlocksShapeKept(old(body), m);
      SectionsShapeKept(old(sections), m);
    }
  }
}
