/**
  The Markdown table scanner of the price acquisition adapter: the scanning loop over
  the lines of a source unit, a declarative description of what it finds, and a document
  printer it inverts.
 */
module MarkdownTables {
  import opened PipeRows
  import opened Seqs
  import opened Lines

  datatype Table = Table(startLine: nat, headers: Row, rows: seq<Row>) {
    /** First line after the table. */
    function End(): nat {
      startLine + 2 + |rows|
    }
  }

  /** What the scanner asks of a line: its cells, and whether they form a delimiter row. */
  datatype Line = Line(cells: Row, delimiter: bool) {
    predicate IsRow() {
      cells != []
    }
  }

  function RowLine(cells: Row): Line {
    Line(cells, IsSeparatorRow(cells))
  }

  function ReadLine(line: string): Line {
    RowLine(ParsePipeRow(line))
  }

  function ReadLines(text: seq<string>): seq<Line> {
    Map(ReadLine, text)
  }

  // ----- the scanning loops -----

  predicate StartsTable(lines: seq<Line>, i: nat) {
    i + 1 < |lines| && lines[i].IsRow() && lines[i + 1].IsRow() && lines[i + 1].delimiter
  }

  /** The table lines from `i` on, fitted to the header's width, up to the first other line. */
  function RowsFrom(lines: seq<Line>, i: nat, width: nat): (rows: seq<Row>)
    ensures i <= |lines| ==> i + |rows| <= |lines|
    decreases |lines| - i
  {
    if i >= |lines| || !lines[i].IsRow() then []
    else [FitRow(lines[i].cells, width)] + RowsFrom(lines, i + 1, width)
  }

  function TableAt(lines: seq<Line>, i: nat): (t: Table)
    requires StartsTable(lines, i)
    ensures t.startLine == i && t.End() <= |lines|
  {
    Table(i, lines[i].cells, RowsFrom(lines, i + 2, |lines[i].cells|))
  }

  /** The tables found from line `i` on. */
  function Scan(lines: seq<Line>, i: nat): seq<Table>
    decreases |lines| - i
  {
    if i + 1 >= |lines| then []
    else if StartsTable(lines, i) then
      var t := TableAt(lines, i);
      (if t.rows != [] then [t] else []) + Scan(lines, t.End())
    else Scan(lines, i + 1)
  }

  /** The tables of a document given as its lines of text. */
  function TablesOf(text: seq<string>): seq<Table> {
    Scan(ReadLines(text), 0)
  }

  /** The inner loop of `_markdown_tables_from_unit`: the rows below a delimiter row. */
  method RowsBelow(lines: seq<Line>, start: nat, width: nat) returns (rowValues: seq<Row>, rowIndex: nat)
    requires start <= |lines|
    ensures rowValues == RowsFrom(lines, start, width) && rowIndex == start + |rowValues|
  {
    rowValues, rowIndex := [], start;
    while rowIndex < |lines|
      invariant rowIndex == start + |rowValues|
      invariant rowValues + RowsFrom(lines, rowIndex, width) == RowsFrom(lines, start, width)
    {
      if !lines[rowIndex].IsRow() {
        break;
      }
      rowValues := rowValues + [FitRow(lines[rowIndex].cells, width)];
      rowIndex := rowIndex + 1;
    }
  }

  /** `_markdown_tables_from_unit`, on the lines as parsed */
  method TablesFromLines(lines: seq<Line>) returns (tables: seq<Table>)
    ensures tables == Scan(lines, 0)
  {
    tables := [];
    var index := 0;
    while index < |lines| - 1
      invariant tables + Scan(lines, index) == Scan(lines, 0)
      decreases |lines| - index
    {
      var header, separator := lines[index], lines[index + 1];
      if header.IsRow() && separator.IsRow() && separator.delimiter {
        var rowValues, rowIndex := RowsBelow(lines, index + 2, |header.cells|);
        if rowValues != [] {
          tables := tables + [Table(index, header.cells, rowValues)];
        }
        index := if rowIndex > index + 1 then rowIndex else index + 1;
      } else {
        index := index + 1;
      }
    }
  }

  // ----- declarative description -----

  /** Line `i` opens a header / separator / row triple. */
  predicate IsTriple(lines: seq<Line>, i: nat) {
    StartsTable(lines, i) && i + 2 < |lines| && lines[i + 2].IsRow()
  }

  /** `t` holds the header at its start line and every table line below its separator, up to the first other line. */
  predicate IsMaximalTable(lines: seq<Line>, t: Table) {
    && IsTriple(lines, t.startLine)
    && t.End() <= |lines|
    && t.headers == lines[t.startLine].cells
    && (forall k :: t.startLine + 2 <= k < t.End() ==> lines[k].IsRow())
    && (forall k :: 0 <= k < |t.rows| ==>
          t.rows[k] == FitRow(lines[t.startLine + 2 + k].cells, |t.headers|))
    && (t.End() < |lines| ==> !lines[t.End()].IsRow())
  }

  predicate Covers(ts: seq<Table>, i: nat) {
    exists t :: t in ts && t.startLine <= i < t.End()
  }

  predicate AllMaximal(lines: seq<Line>, ts: seq<Table>, from: nat) {
    forall t :: t in ts ==> IsMaximalTable(lines, t) && from <= t.startLine
  }

  predicate Ordered(ts: seq<Table>) {
    forall j, k :: 0 <= j < k < |ts| ==> ts[j].End() <= ts[k].startLine
  }

  ghost predicate Exhaustive(lines: seq<Line>, ts: seq<Table>, from: nat) {
    forall i {:trigger Covers(ts, i)} :: from <= i && IsTriple(lines, i) ==> Covers(ts, i)
  }

  /**
    From line `from` on: maximal tables with disjoint increasing spans that leave no
    header / separator / row triple uncovered.
   */
  ghost predicate IsTableCover(lines: seq<Line>, ts: seq<Table>, from: nat) {
    AllMaximal(lines, ts, from) && Ordered(ts) && Exhaustive(lines, ts, from)
  }

  lemma {:induction false} RowsFromMaximal(lines: seq<Line>, i: nat, width: nat)
    requires i <= |lines|
    ensures var n := |RowsFrom(lines, i, width)|;
      && (forall k :: i <= k < i + n ==> lines[k].IsRow())
      && (forall k :: 0 <= k < n ==> RowsFrom(lines, i, width)[k] == FitRow(lines[i + k].cells, width))
      && (i + n < |lines| ==> !lines[i + n].IsRow())
    decreases |lines| - i
  {
    if i < |lines| && lines[i].IsRow() {
      RowsFromMaximal(lines, i + 1, width);
    }
  }

  lemma TableAtMaximal(lines: seq<Line>, i: nat)
    requires StartsTable(lines, i) && TableAt(lines, i).rows != []
    ensures IsMaximalTable(lines, TableAt(lines, i))
  {
    RowsFromMaximal(lines, i + 2, |lines[i].cells|);
  }

  /** Putting a table in front of a cover of the lines after it. */
  lemma ConsCover(lines: seq<Line>, t: Table, ts: seq<Table>, from: nat)
    requires IsMaximalTable(lines, t) && t.startLine == from
    requires IsTableCover(lines, ts, t.End())
    ensures IsTableCover(lines, [t] + ts, from)
  {
    var us := [t] + ts;
    assert Ordered(us) by {
      forall j, k | 0 <= j < k < |us| ensures us[j].End() <= us[k].startLine {
        assert us[k] in ts;
      }
    }
    forall i | from <= i && IsTriple(lines, i)
      ensures Covers(us, i)
    {
      if i < t.End() {
        assert t in us;
      } else {
        assert Covers(ts, i);
        var u :| u in ts && u.startLine <= i < u.End();
        assert u in us;
      }
    }
  }

  /** Lines that open no triple can be put in front of a cover. */
  lemma {:induction false} SkipCover(lines: seq<Line>, ts: seq<Table>, from: nat, next: nat)
    requires from <= next && IsTableCover(lines, ts, next)
    requires forall i :: from <= i < next ==> !IsTriple(lines, i)
    ensures IsTableCover(lines, ts, from)
  {
  }

  lemma {:induction false} ScanIsCover(lines: seq<Line>, i: nat)
    ensures IsTableCover(lines, Scan(lines, i), i)
    decreases |lines| - i
  {
    if i + 1 >= |lines| {
    } else if StartsTable(lines, i) {
      var t := TableAt(lines, i);
      var rest := Scan(lines, t.End());
      ScanIsCover(lines, t.End());
      if t.rows != [] {
        TableAtMaximal(lines, i);
        ConsCover(lines, t, rest, i);
      } else {
        // neither line i nor the separator below it can open a triple
        assert !IsTriple(lines, i) && !IsTriple(lines, i + 1);
        SkipCover(lines, rest, i, i + 2);
        assert Scan(lines, i) == rest;
      }
    } else {
      ScanIsCover(lines, i + 1);
      SkipCover(lines, Scan(lines, i + 1), i, i + 1);
    }
  }

  /** Two maximal tables with the same first line are the same table. */
  lemma {:induction false} SameStartSameTable(lines: seq<Line>, t: Table, u: Table)
    requires IsMaximalTable(lines, t) && IsMaximalTable(lines, u) && t.startLine == u.startLine
    ensures t == u
  {
  }

  lemma CoverTail(lines: seq<Line>, ts: seq<Table>, from: nat)
    requires IsTableCover(lines, ts, from) && ts != []
    ensures IsTableCover(lines, ts[1..], ts[0].End())
  {
    forall t | t in ts[1..] ensures ts[0].End() <= t.startLine {
      var k :| 0 <= k < |ts[1..]| && ts[1..][k] == t;
      assert ts[k + 1] == t;
    }
    forall i | ts[0].End() <= i && IsTriple(lines, i)
      ensures Covers(ts[1..], i)
    {
      assert Covers(ts, i);
      var t :| t in ts && t.startLine <= i < t.End();
      assert t in ts[1..];
    }
  }

  /** The first table of a cover starts no later than the first table of any other. */
  lemma FirstIsCovered(lines: seq<Line>, ts: seq<Table>, us: seq<Table>, from: nat)
    requires IsTableCover(lines, ts, from) && IsTableCover(lines, us, from) && us != []
    ensures ts != [] && ts[0].startLine <= us[0].startLine
  {
    assert IsMaximalTable(lines, us[0]);
    assert Covers(ts, us[0].startLine);
    var t :| t in ts && t.startLine <= us[0].startLine < t.End();
    var j :| 0 <= j < |ts| && ts[j] == t;
    if j > 0 {
      assert ts[0].End() <= ts[j].startLine;
    }
  }

  lemma {:induction false} CoverUnique(lines: seq<Line>, ts: seq<Table>, us: seq<Table>, from: nat)
    requires IsTableCover(lines, ts, from) && IsTableCover(lines, us, from)
    ensures ts == us
    decreases |ts|
  {
    if us != [] {
      FirstIsCovered(lines, ts, us, from);
    }
    if ts != [] {
      FirstIsCovered(lines, us, ts, from);
      SameStartSameTable(lines, ts[0], us[0]);
      CoverTail(lines, ts, from);
      CoverTail(lines, us, from);
      CoverUnique(lines, ts[1..], us[1..], ts[0].End());
    }
  }

  /** The scanner computes the one and only cover of a document. */
  lemma ScanCharacterised(text: seq<string>, ts: seq<Table>)
    ensures ts == TablesOf(text) <==> IsTableCover(ReadLines(text), ts, 0)
  {
    var lines := ReadLines(text);
    ScanIsCover(lines, 0);
    if IsTableCover(lines, ts, 0) {
      CoverUnique(lines, ts, Scan(lines, 0), 0);
    }
  }

  predicate CleanTable(t: Table) {
    && t.rows != []
    && CleanRow(t.headers)
    && forall k :: 0 <= k < |t.rows| ==> |t.rows[k]| == |t.headers| && CleanCells(t.rows[k])
  }

  /** Every scanned table is rectangular with trimmed, pipe-free cells and at least one row. */
  lemma ScannedTableClean(text: seq<string>, t: Table)
    requires t in TablesOf(text)
    ensures CleanTable(t)
  {
    var lines := ReadLines(text);
    ScanIsCover(lines, 0);
    forall i | 0 <= i < |lines| && lines[i].IsRow() ensures CleanRow(lines[i].cells) {
      ParsedClean(text[i]);
    }
    MaximalTableClean(lines, t);
  }

  lemma {:induction false} MaximalTableClean(lines: seq<Line>, t: Table)
    requires IsMaximalTable(lines, t)
    requires forall i :: 0 <= i < |lines| && lines[i].IsRow() ==> CleanRow(lines[i].cells)
    ensures CleanTable(t)
  {
  }

  // ----- printer -----

  /**
    A table as it is printed: any delimiter row, rows of any width, all lines with or
    without the outer pipes, and the pipe-free lines after it.
   */
  datatype Block = Block(headers: Row, delimiter: Row, rows: seq<Row>, outer: Outer, gap: seq<string>) {
    /** The table read back from line `i`: rows padded or cut to the header's width. */
    function TableFrom(i: nat): Table {
      Table(i, headers, Map(Fit(|headers|), rows))
    }

    function Size(): nat {
      2 + |rows|
    }
  }

  function Fit(width: nat): Row -> Row {
    (cells: Row) => FitRow(cells, width)
  }

  /** A row that reads back when printed with these outer pipes. */
  predicate PrintableRow(cells: Row, outer: Outer) {
    CleanRow(cells) && Shown(cells, outer)
  }

  predicate Printable(b: Block) {
    && PrintableRow(b.headers, b.outer) && PrintableRow(b.delimiter, b.outer) && IsSeparatorRow(b.delimiter)
    && b.rows != [] && forall k :: 0 <= k < |b.rows| ==> PrintableRow(b.rows[k], b.outer)
  }

  predicate PipeFree(lines: seq<string>) {
    forall i :: 0 <= i < |lines| ==> '|' !in lines[i]
  }

  function RenderRows(rows: seq<Row>, outer: Outer): (lines: seq<string>)
    requires forall k :: 0 <= k < |rows| ==> rows[k] != []
    ensures |lines| == |rows|
    ensures forall k :: 0 <= k < |rows| ==> lines[k] == RenderRow(rows[k], outer)
  {
    seq(|rows|, k requires 0 <= k < |rows| => RenderRow(rows[k], outer))
  }

  function RenderTable(b: Block): seq<string>
    requires Printable(b)
  {
    [RenderRow(b.headers, b.outer), RenderRow(b.delimiter, b.outer)] + RenderRows(b.rows, b.outer)
  }

  /** Tables are kept apart by at least one pipe-free line; the last may end the document. */
  predicate Printables(blocks: seq<Block>) {
    && (forall j :: 0 <= j < |blocks| ==> Printable(blocks[j]) && PipeFree(blocks[j].gap))
    && (forall j :: 0 <= j < |blocks| - 1 ==> blocks[j].gap != [])
  }

  function Render(blocks: seq<Block>): seq<string>
    requires Printables(blocks)
  {
    if blocks == [] then []
    else
      assert Printables(blocks[1..]);
      RenderTable(blocks[0]) + blocks[0].gap + Render(blocks[1..])
  }

  /** The tables of `blocks` with the start lines they have when printed from line `i` on. */
  function Placed(blocks: seq<Block>, i: nat): seq<Table>
  {
    if blocks == [] then []
    else [blocks[0].TableFrom(i)] + Placed(blocks[1..], i + blocks[0].Size() + |blocks[0].gap|)
  }

  // The same document as the scanner reads it.

  /** Header and delimiter row read as such, and there are rows below. */
  predicate Readable(line: Row -> Line, b: Block) {
    && b.headers != [] && b.rows != [] && (forall k :: 0 <= k < |b.rows| ==> b.rows[k] != [])
    && b.delimiter != [] && line(b.delimiter).delimiter
  }

  predicate Separated(line: Row -> Line, blocks: seq<Block>) {
    && (forall j :: 0 <= j < |blocks| ==> Readable(line, blocks[j]))
    && (forall j :: 0 <= j < |blocks| - 1 ==> |blocks[j].gap| > 0)
  }

  lemma {:induction false} PrintablesSeparated(blocks: seq<Block>)
    requires Printables(blocks)
    ensures Separated(RowLine, blocks)
  {
  }

  /** `line` reads printed rows back. */
  ghost predicate ReadsRows(line: Row -> Line) {
    forall cells :: line(cells).cells == cells
  }

  function TableLines(line: Row -> Line, b: Block): seq<Line> {
    [line(b.headers), line(b.delimiter)] + Map(line, b.rows)
  }

  function GapLines(n: nat): (lines: seq<Line>)
    ensures |lines| == n && forall i :: 0 <= i < n ==> !lines[i].IsRow()
  {
    seq(n, _ => Line([], false))
  }

  function DocumentLines(line: Row -> Line, blocks: seq<Block>): seq<Line> {
    if blocks == [] then []
    else TableLines(line, blocks[0]) + GapLines(|blocks[0].gap|) + DocumentLines(line, blocks[1..])
  }

  lemma {:induction false} ReadRendered(cells: Row, outer: Outer)
    requires PrintableRow(cells, outer)
    ensures ReadLine(RenderRow(cells, outer)) == RowLine(cells)
  {
    ParseShown("", cells, outer, "");
    assert "" + RenderRow(cells, outer) + "" == RenderRow(cells, outer);
  }

  lemma {:induction false} ReadRows(rows: seq<Row>, outer: Outer)
    requires forall k :: 0 <= k < |rows| ==> rows[k] != [] && PrintableRow(rows[k], outer)
    ensures ReadLines(RenderRows(rows, outer)) == Map(RowLine, rows)
  {
    forall k | 0 <= k < |rows|
      ensures ReadLines(RenderRows(rows, outer))[k] == Map(RowLine, rows)[k]
    {
      ReadRendered(rows[k], outer);
    }
  }

  lemma {:induction false} ReadGap(gap: seq<string>)
    requires PipeFree(gap)
    ensures ReadLines(gap) == GapLines(|gap|)
  {
    forall k | 0 <= k < |gap| ensures ReadLines(gap)[k] == Line([], false) {
      PipeFreeIsNoRow(gap[k]);
    }
  }

  lemma {:induction false} ReadTable(b: Block)
    requires Printable(b)
    ensures ReadLines(RenderTable(b)) == TableLines(RowLine, b)
  {
    ReadRows(b.rows, b.outer);
    ReadRendered(b.headers, b.outer);
    ReadRendered(b.delimiter, b.outer);
    ReadTop(RenderRow(b.headers, b.outer), RenderRow(b.delimiter, b.outer), RenderRows(b.rows, b.outer));
  }

  lemma ReadTop(header: string, delimiter: string, rest: seq<string>)
    ensures ReadLines([header, delimiter] + rest) == [ReadLine(header), ReadLine(delimiter)] + ReadLines(rest)
  {
    MapConcat(ReadLine, [header, delimiter], rest);
  }

  lemma {:induction false} ReadDocument(blocks: seq<Block>)
    requires Printables(blocks)
    ensures ReadLines(Render(blocks)) == DocumentLines(RowLine, blocks)
  {
    if blocks != [] {
      var t, gap := RenderTable(blocks[0]), blocks[0].gap;
      MapConcat(ReadLine, t + gap, Render(blocks[1..]));
      MapConcat(ReadLine, t, gap);
      ReadTable(blocks[0]);
      ReadGap(gap);
      ReadDocument(blocks[1..]);
    }
  }

  lemma {:induction false} ReadPrinted(preamble: seq<string>, blocks: seq<Block>)
    requires PipeFree(preamble) && Printables(blocks)
    ensures ReadLines(preamble + Render(blocks)) == GapLines(|preamble|) + DocumentLines(RowLine, blocks)
  {
    MapConcat(ReadLine, preamble, Render(blocks));
    ReadGap(preamble);
    ReadDocument(blocks);
  }

  // Where the lines of a document stand.

  predicate TableStands(line: Row -> Line, lines: seq<Line>, i: nat, b: Block) {
    && i + b.Size() <= |lines|
    && lines[i] == line(b.headers)
    && lines[i + 1] == line(b.delimiter)
    && forall k :: 0 <= k < |b.rows| ==> lines[i + 2 + k] == line(b.rows[k])
  }

  predicate GapStands(lines: seq<Line>, i: nat, g: nat) {
    i + g <= |lines| && forall k :: i <= k < i + g ==> !lines[k].IsRow()
  }

  predicate DocumentStands(line: Row -> Line, lines: seq<Line>, i: nat, blocks: seq<Block>)
    decreases |blocks|
  {
    if blocks == [] then i == |lines|
    else
      var b, g := blocks[0], |blocks[0].gap|;
      && TableStands(line, lines, i, b)
      && GapStands(lines, i + b.Size(), g)
      && (g == 0 ==> i + b.Size() == |lines|)
      && DocumentStands(line, lines, i + b.Size() + g, blocks[1..])
  }

  lemma {:induction false} TablePlaced(line: Row -> Line, pre: seq<Line>, b: Block, post: seq<Line>)
    ensures TableStands(line, pre + TableLines(line, b) + post, |pre|, b)
  {
  }

  lemma {:induction false} GapPlaced(pre: seq<Line>, g: nat, post: seq<Line>)
    ensures GapStands(pre + GapLines(g) + post, |pre|, g)
  {
  }

  lemma {:induction false} DocumentPlaced(line: Row -> Line, pre: seq<Line>, blocks: seq<Block>)
    requires Separated(line, blocks)
    ensures DocumentStands(line, pre + DocumentLines(line, blocks), |pre|, blocks)
    decreases |blocks|
  {
    if blocks == [] {
      assert pre + DocumentLines(line, blocks) == pre;
    } else {
      var b, g := blocks[0], |blocks[0].gap|;
      var table, gap, rest := TableLines(line, b), GapLines(g), DocumentLines(line, blocks[1..]);
      Reassociate(pre, table, gap, rest);
      BlockPlaced(line, pre, b, g, rest);
      DocumentPlaced(line, pre + table + gap, blocks[1..]);
    }
  }

  lemma BlockPlaced(line: Row -> Line, pre: seq<Line>, b: Block, g: nat, rest: seq<Line>)
    ensures var lines := pre + TableLines(line, b) + GapLines(g) + rest;
      && TableStands(line, lines, |pre|, b) && GapStands(lines, |pre| + b.Size(), g)
      && |lines| == |pre| + b.Size() + g + |rest|
  {
    var table, gap := TableLines(line, b), GapLines(g);
    Reassociate(pre, table, gap, rest);
    TablePlaced(line, pre, b, gap + rest);
    GapPlaced(pre + table, g, rest);
  }

  lemma {:induction false} RowsFromIs(lines: seq<Line>, i: nat, width: nat, rows: seq<Row>)
    requires i + |rows| <= |lines|
    requires forall k :: 0 <= k < |rows| ==> rows[k] != [] && lines[i + k].cells == rows[k]
    requires i + |rows| < |lines| ==> !lines[i + |rows|].IsRow()
    ensures RowsFrom(lines, i, width) == Map(Fit(width), rows)
    decreases |rows|
  {
    if rows != [] {
      assert lines[i + 0].cells == rows[0];
      forall k | 0 <= k < |rows| - 1 ensures lines[i + 1 + k].cells == rows[1..][k] {
        assert lines[i + (k + 1)].cells == rows[k + 1];
      }
      RowsFromIs(lines, i + 1, width, rows[1..]);
    }
  }

  /** Where the lines of a printed table stand, the scanner reads the table back. */
  lemma TableAtPrinted(line: Row -> Line, lines: seq<Line>, i: nat, b: Block)
    requires ReadsRows(line) && Readable(line, b) && TableStands(line, lines, i, b)
    requires i + b.Size() < |lines| ==> !lines[i + b.Size()].IsRow()
    ensures StartsTable(lines, i) && TableAt(lines, i) == b.TableFrom(i)
  {
    RowsFromIs(lines, i + 2, |b.headers|, b.rows);
  }

  lemma {:induction false} ScanSkipsGap(lines: seq<Line>, i: nat, g: nat)
    requires GapStands(lines, i, g)
    ensures Scan(lines, i) == Scan(lines, i + g)
    decreases g
  {
    if g > 0 {
      ScanSkipsGap(lines, i + 1, g - 1);
    }
  }

  lemma BlockStep(line: Row -> Line, lines: seq<Line>, i: nat, b: Block, g: nat)
    requires ReadsRows(line) && Readable(line, b) && TableStands(line, lines, i, b)
    requires GapStands(lines, i + b.Size(), g) && (g == 0 ==> i + b.Size() == |lines|)
    ensures Scan(lines, i) == [b.TableFrom(i)] + Scan(lines, i + b.Size() + g)
  {
    TableAtPrinted(line, lines, i, b);
    ScanSkipsGap(lines, i + b.Size(), g);
  }

  lemma {:induction false} ScanDocument(line: Row -> Line, lines: seq<Line>, i: nat, blocks: seq<Block>)
    requires ReadsRows(line) && Separated(line, blocks) && DocumentStands(line, lines, i, blocks)
    ensures Scan(lines, i) == Placed(blocks, i)
    decreases |blocks|
  {
    if blocks != [] {
      var b, g := blocks[0], |blocks[0].gap|;
      BlockStep(line, lines, i, b, g);
      assert Separated(line, blocks[1..]);
      assert Placed(blocks, i) == [b.TableFrom(i)] + Placed(blocks[1..], i + b.Size() + g);
      ScanDocument(line, lines, i + b.Size() + g, blocks[1..]);
    }
  }

  lemma ScanPrinted(line: Row -> Line, n: nat, blocks: seq<Block>)
    requires ReadsRows(line) && Separated(line, blocks)
    ensures Scan(GapLines(n) + DocumentLines(line, blocks), 0) == Placed(blocks, n)
  {
    var lines := GapLines(n) + DocumentLines(line, blocks);
    DocumentPlaced(line, GapLines(n), blocks);
    ScanSkipsGap(lines, 0, n);
    ScanDocument(line, lines, n, blocks);
  }

  lemma {:induction false} RowLineReadsRows()
    ensures ReadsRows(RowLine)
  {
  }

  /**
    Round trip: scanning a printed document returns exactly the printed tables, in order,
    at the lines where they were printed, their rows fitted to the header's width.
   */
  lemma {:induction false} ScanInvertsRender(preamble: seq<string>, blocks: seq<Block>)
    requires PipeFree(preamble) && Printables(blocks)
    ensures TablesOf(preamble + Render(blocks)) == Placed(blocks, |preamble|)
  {
    ReadPrinted(preamble, blocks);
    PrintablesSeparated(blocks);
    RowLineReadsRows();
    ScanPrinted(RowLine, |preamble|, blocks);
  }

  // ----- the same on raw text -----

  function TablesOfText(text: string): seq<Table> {
    TablesOf(SplitLines(text))
  }

  /** No cell and no line between tables contains a line break. */
  predicate Unbroken(blocks: seq<Block>) {
    forall j :: 0 <= j < |blocks| ==> UnbrokenBlock(blocks[j])
  }

  predicate UnbrokenBlock(b: Block) {
    && AllBreakFree(b.headers) && AllBreakFree(b.delimiter) && AllBreakFree(b.gap)
    && forall k :: 0 <= k < |b.rows| ==> AllBreakFree(b.rows[k])
  }

  lemma {:induction false} JoinPipesUnbroken(cells: Row)
    requires cells != [] && AllBreakFree(cells)
    ensures BreakFree(JoinPipes(Padded(cells)))
  {
    assert BreakFree(Pad(cells[0]));
    if |cells| > 1 {
      JoinPipesUnbroken(cells[1..]);
      assert Padded(cells)[1..] == Padded(cells[1..]);
    }
  }

  lemma RenderRowUnbroken(cells: Row, outer: Outer)
    requires cells != [] && AllBreakFree(cells)
    ensures BreakFree(RenderRow(cells, outer))
  {
    JoinPipesUnbroken(cells);
  }

  lemma RenderTableUnbroken(b: Block)
    requires Printable(b) && UnbrokenBlock(b)
    ensures AllBreakFree(RenderTable(b))
  {
    RenderRowUnbroken(b.headers, b.outer);
    RenderRowUnbroken(b.delimiter, b.outer);
    forall k | 0 <= k < |b.rows| ensures BreakFree(RenderRows(b.rows, b.outer)[k]) {
      RenderRowUnbroken(b.rows[k], b.outer);
    }
  }

  lemma {:induction false} RenderUnbroken(blocks: seq<Block>)
    requires Printables(blocks) && Unbroken(blocks)
    ensures AllBreakFree(Render(blocks))
  {
    if blocks != [] {
      RenderTableUnbroken(blocks[0]);
      RenderUnbroken(blocks[1..]);
    }
  }

  /** `text` is the printed document, its lines ended by any line breaks. */
  ghost predicate Prints(text: string, preamble: seq<string>, blocks: seq<Block>) {
    && PipeFree(preamble) && Printables(blocks)
    && exists ends :: Ended(preamble + Render(blocks), ends) && text == JoinLines(preamble + Render(blocks), ends)
  }

  /** The round trip down to the characters: split into lines and scanned, the printed text gives back its tables. */
  lemma TextInvertsPrint(text: string, preamble: seq<string>, blocks: seq<Block>)
    requires Prints(text, preamble, blocks)
    ensures TablesOfText(text) == Placed(blocks, |preamble|)
  {
    var ends :| Ended(preamble + Render(blocks), ends) && text == JoinLines(preamble + Render(blocks), ends);
    SplitJoined(preamble + Render(blocks), ends);
    ScanInvertsRender(preamble, blocks);
  }

  /** Every document without breaks in its cells can be printed so, with line feeds. */
  lemma PrintsWithLineFeeds(preamble: seq<string>, blocks: seq<Block>)
    requires PipeFree(preamble) && AllBreakFree(preamble) && Printables(blocks) && Unbroken(blocks)
    ensures var lines := preamble + Render(blocks);
      Prints(JoinLines(lines, LineFeeds(|lines|)), preamble, blocks)
  {
    RenderUnbroken(blocks);
    LineFeedsEnd(preamble + Render(blocks));
  }
}
