/**
  One line of a Markdown pipe table: parsing it into cells, recognising the delimiter
  line, and a printer that parsing inverts.
 */
module PipeRows {
  import opened Text
  import opened Seqs

  type Row = seq<string>

  function SplitPipe(s: string): (cells: Row)
    ensures cells != []
  {
    if s == [] then [""]
    else
      var rest := SplitPipe(s[1..]);
      if s[0] == '|' then [""] + rest else [[s[0]] + rest[0]] + rest[1..]
  }

  function StripAll(cells: Row): Row {
    Map(Strip, cells)
  }

  predicate HasText(cells: Row) {
    exists i :: 0 <= i < |cells| && cells[i] != ""
  }

  function DropOuterPipes(s: string): string {
    var a := if s != [] && s[0] == '|' then s[1..] else s;
    if a != [] && a[|a| - 1] == '|' then a[..|a| - 1] else a
  }

  /** `_parse_pipe_row`: the empty row means "not a table line". */
  function ParsePipeRow(line: string): Row {
    var stripped := Strip(line);
    if '|' !in stripped then []
    else
      var cells := StripAll(SplitPipe(DropOuterPipes(stripped)));
      if HasText(cells) then cells else []
  }

  predicate CleanCell(cell: string) {
    Trimmed(cell) && '|' !in cell
  }

  /** What every parsed row satisfies, and all a row needs for the printer below. */
  predicate CleanRow(cells: Row) {
    HasText(cells) && CleanCells(cells)
  }

  predicate CleanCells(cells: Row) {
    forall i :: 0 <= i < |cells| ==> CleanCell(cells[i])
  }

  lemma {:induction false} SplitPipeFree(s: string)
    ensures forall i :: 0 <= i < |SplitPipe(s)| ==> '|' !in SplitPipe(s)[i]
  {
    if s != [] {
      SplitPipeFree(s[1..]);
    }
  }

  function AfterColon(s: string): string {
    if s != [] && s[0] == ':' then s[1..] else s
  }

  function BeforeColon(s: string): string {
    if s != [] && s[|s| - 1] == ':' then s[..|s| - 1] else s
  }

  predicate AllDashes(s: string) {
    forall i :: 0 <= i < |s| ==> s[i] == '-'
  }

  lemma StripAllClean(cells: Row)
    requires forall i :: 0 <= i < |cells| ==> '|' !in cells[i]
    ensures CleanCells(StripAll(cells))
  {
    forall i | 0 <= i < |cells| ensures CleanCell(StripAll(cells)[i]) {
      StripKeepsAbsence(cells[i], '|');
    }
  }

  /** Cells come out trimmed and without pipes, at least one of them with text. */
  lemma ParsedClean(line: string)
    ensures ParsePipeRow(line) != [] ==> CleanRow(ParsePipeRow(line))
  {
    var inner := DropOuterPipes(Strip(line));
    SplitPipeFree(inner);
    StripAllClean(SplitPipe(inner));
  }

  /** The cell pattern `:?-{3,}:?` */
  predicate IsDelimiterCell(cell: string) {
    var hyphens := BeforeColon(AfterColon(cell));
    |hyphens| >= 3 && AllDashes(hyphens)
  }

  predicate IsSeparatorRow(cells: Row) {
    cells != [] && forall i :: 0 <= i < |cells| ==> IsDelimiterCell(Strip(cells[i]))
  }

  function Dashes(n: nat): (s: string)
    ensures |s| == n && AllDashes(s)
  {
    seq(n, _ => '-')
  }

  lemma DelimiterCellParts(cell: string) returns (n: nat, l: bool, r: bool)
    requires IsDelimiterCell(cell)
    ensures n >= 3 && cell == Colon(l) + Dashes(n) + Colon(r)
  {
    var a := AfterColon(cell);
    var b := BeforeColon(a);
    n, l, r := |b|, a != cell, b != a;
    assert b == Dashes(n);
    assert a == b + Colon(r);
  }

  lemma {:induction false} DelimiterCellBuilt(n: nat, l: bool, r: bool)
    requires n >= 3
    ensures IsDelimiterCell(Colon(l) + Dashes(n) + Colon(r))
  {
  }

  /** An optional colon, three or more hyphens, an optional colon. */
  predicate IsRule(cell: string) {
    exists n: nat, l: bool, r: bool :: 3 <= n <= |cell| && cell == Colon(l) + Dashes(n) + Colon(r)
  }

  /** The delimiter test accepts exactly the rules. */
  lemma DelimiterCellShape(cell: string)
    ensures IsDelimiterCell(cell) <==> IsRule(cell)
  {
    if IsDelimiterCell(cell) {
      var n, l, r := DelimiterCellParts(cell);
    }
    forall n: nat, l: bool, r: bool | n >= 3 && cell == Colon(l) + Dashes(n) + Colon(r)
      ensures IsDelimiterCell(cell)
    {
      DelimiterCellBuilt(n, l, r);
    }
  }

  /** A row of parsed cells is a delimiter row exactly when all its cells are rules. */
  lemma SeparatorRowIff(cells: Row)
    requires CleanCells(cells)
    ensures IsSeparatorRow(cells) <==> cells != [] && forall i :: 0 <= i < |cells| ==> IsRule(cells[i])
  {
    forall i | 0 <= i < |cells| ensures IsDelimiterCell(Strip(cells[i])) <==> IsRule(cells[i]) {
      StripTrimmed(cells[i]);
      DelimiterCellShape(cells[i]);
    }
  }

  function Colon(present: bool): string {
    if present then ":" else ""
  }

  /** A short row is padded with empty cells, then every row is cut to the width. */
  function FitRow(cells: Row, width: nat): (r: Row)
    ensures |r| == width
    ensures forall i :: 0 <= i < width ==> r[i] == if i < |cells| then cells[i] else ""
  {
    var padded := if |cells| < width then cells + Blanks(width - |cells|) else cells;
    padded[..width]
  }

  function Blanks(n: nat): (r: Row)
    ensures |r| == n && forall i :: 0 <= i < n ==> r[i] == ""
  {
    if n == 0 then [] else Blanks(n - 1) + [""]
  }

  /** Fitting changes nothing exactly for a row of that width, and a fitted row only once. */
  lemma FitRowFixed(cells: Row, width: nat)
    ensures FitRow(cells, width) == cells <==> |cells| == width
    ensures FitRow(FitRow(cells, width), width) == FitRow(cells, width)
  {
  }

  // ----- lines as joined cells -----

  predicate PipeFreeCells(raw: Row) {
    forall i :: 0 <= i < |raw| ==> '|' !in raw[i]
  }

  function JoinPipes(raw: Row): string
    requires raw != []
  {
    raw[0] + if |raw| == 1 then "" else "|" + JoinPipes(raw[1..])
  }

  lemma {:induction false} SplitCell(cell: string, rest: string)
    requires '|' !in cell
    ensures SplitPipe(cell + "|" + rest) == [cell] + SplitPipe(rest)
  {
    var s := cell + "|" + rest;
    if cell == [] {
      assert s[1..] == rest;
    } else {
      assert s[1..] == cell[1..] + "|" + rest;
      SplitCell(cell[1..], rest);
      assert s[0] == cell[0] && cell[0] in cell;
      assert [cell[0]] + cell[1..] == cell;
      assert ([cell[1..]] + SplitPipe(rest))[1..] == SplitPipe(rest);
    }
  }

  lemma {:induction false} SplitLastCell(cell: string)
    requires '|' !in cell
    ensures SplitPipe(cell) == [cell]
  {
    if cell != [] {
      SplitLastCell(cell[1..]);
      assert cell[0] in cell;
      assert [cell[0]] + cell[1..] == cell;
    }
  }

  /** Splitting at pipes undoes joining with them. */
  lemma {:induction false} SplitJoinedCells(raw: Row)
    requires raw != [] && PipeFreeCells(raw)
    ensures SplitPipe(JoinPipes(raw)) == raw
  {
    if |raw| == 1 {
      assert JoinPipes(raw) == raw[0];
      SplitLastCell(raw[0]);
    } else {
      SplitJoinedCells(raw[1..]);
      SplitCell(raw[0], JoinPipes(raw[1..]));
      assert JoinPipes(raw) == raw[0] + "|" + JoinPipes(raw[1..]);
    }
  }

  /** And joining undoes splitting. */
  lemma {:induction false} JoinSplitCells(s: string)
    ensures JoinPipes(SplitPipe(s)) == s
  {
    if s != [] {
      JoinSplitCells(s[1..]);
      var rest := SplitPipe(s[1..]);
      if s[0] == '|' {
        assert ([""] + rest)[1..] == rest;
      } else {
        assert ([[s[0]] + rest[0]] + rest[1..])[1..] == rest[1..];
      }
    }
  }

  // ----- which lines are rows -----

  /** A character that makes a cell non-empty. */
  predicate TextChar(c: char) {
    c != '|' && !IsSpace(c)
  }

  predicate HasTextChar(s: string) {
    exists i :: 0 <= i < |s| && TextChar(s[i])
  }

  lemma TextCharConcat(a: string, b: string)
    ensures HasTextChar(a + b) <==> HasTextChar(a) || HasTextChar(b)
  {
    if HasTextChar(a) {
      var i :| 0 <= i < |a| && TextChar(a[i]);
      assert TextChar((a + b)[i]);
    }
    if HasTextChar(b) {
      var i :| 0 <= i < |b| && TextChar(b[i]);
      assert TextChar((a + b)[|a| + i]);
    }
  }

  lemma CellHasText(cell: string)
    requires '|' !in cell
    ensures Strip(cell) != "" <==> HasTextChar(cell)
  {
    BlankIsAllSpace(cell);
    forall i | 0 <= i < |cell| ensures cell[i] != '|' {
      assert cell[i] in cell;
    }
  }

  lemma {:induction false} RowHasText(raw: Row)
    requires raw != [] && PipeFreeCells(raw)
    ensures HasText(StripAll(raw)) <==> HasTextChar(JoinPipes(raw))
  {
    CellHasText(raw[0]);
    if |raw| > 1 {
      RowHasText(raw[1..]);
      TextCharConcat(raw[0], "|" + JoinPipes(raw[1..]));
      TextCharConcat("|", JoinPipes(raw[1..]));
      assert StripAll(raw) == [Strip(raw[0])] + StripAll(raw[1..]);
      HasTextCons(Strip(raw[0]), StripAll(raw[1..]));
    } else {
      assert JoinPipes(raw) == raw[0];
    }
  }

  lemma HasTextCons(cell: string, cells: Row)
    ensures HasText([cell] + cells) <==> cell != "" || HasText(cells)
  {
    if HasText(cells) {
      var i :| 0 <= i < |cells| && cells[i] != "";
      assert ([cell] + cells)[i + 1] != "";
    }
    if cell != "" {
      assert ([cell] + cells)[0] != "";
    }
  }

  lemma DroppedPipes(s: string)
    ensures HasTextChar(DropOuterPipes(s)) <==> HasTextChar(s)
  {
    var a := if s != [] && s[0] == '|' then s[1..] else s;
    if s != [] && s[0] == '|' {
      TextCharConcat("|", a);
      assert s == "|" + a;
    }
    if a != [] && a[|a| - 1] == '|' {
      TextCharConcat(a[..|a| - 1], "|");
      assert a == a[..|a| - 1] + "|";
    }
  }

  lemma StripHasText(line: string)
    ensures HasTextChar(Strip(line)) <==> HasTextChar(line)
    ensures '|' in Strip(line) <==> '|' in line
  {
    var l, r := StripParts(line);
    TextCharConcat(l + Strip(line), r);
    TextCharConcat(l, Strip(line));
    assert '|' !in l && '|' !in r;
  }

  /** A line is a row if and only if it holds a pipe and a character that is neither a pipe nor white space. */
  lemma RowIff(line: string)
    ensures ParsePipeRow(line) != [] <==> '|' in line && HasTextChar(line)
  {
    var inner := DropOuterPipes(Strip(line));
    StripHasText(line);
    DroppedPipes(Strip(line));
    SplitPipeFree(inner);
    JoinSplitCells(inner);
    RowHasText(SplitPipe(inner));
  }

  // ----- which row a line is -----

  function Bar(present: bool): string {
    if present then "|" else ""
  }

  /** The cells as they stand in a line, with or without the outer pipes. */
  function LineOf(raw: Row, lead: bool, trail: bool): string
    requires raw != []
  {
    Bar(lead) + JoinPipes(raw) + Bar(trail)
  }

  /** Every cell is set off by pipes: a blank outer cell needs its outer pipe, a single cell at least one. */
  predicate SetOff(raw: Row, lead: bool, trail: bool)
    requires raw != []
  {
    && (lead || !Blank(raw[0])) && (trail || !Blank(raw[|raw| - 1]))
    && (|raw| > 1 || lead || trail)
  }

  lemma {:induction false} SplitAfter(l: string, s: string)
    requires '|' !in l
    ensures SplitPipe(l + s) == [l + SplitPipe(s)[0]] + SplitPipe(s)[1..]
  {
    if l == "" {
      assert l + s == s && l + SplitPipe(s)[0] == SplitPipe(s)[0];
      assert SplitPipe(s) == [SplitPipe(s)[0]] + SplitPipe(s)[1..];
    } else {
      assert l[0] in l && (l + s)[1..] == l[1..] + s;
      SplitAfter(l[1..], s);
      assert [l[0]] + (l[1..] + SplitPipe(s)[0]) == l + SplitPipe(s)[0];
    }
  }

  /** `cells` with `r` put at the end of the last one. */
  function WithTail(cells: Row, r: string): (tailed: Row)
    requires cells != []
    ensures |tailed| == |cells| && tailed[|cells| - 1] == cells[|cells| - 1] + r
    ensures forall k :: 0 <= k < |cells| - 1 ==> tailed[k] == cells[k]
  {
    cells[..|cells| - 1] + [cells[|cells| - 1] + r]
  }

  lemma SplitCons(c: char, s: string)
    ensures SplitPipe([c] + s) ==
            if c == '|' then [""] + SplitPipe(s) else [[c] + SplitPipe(s)[0]] + SplitPipe(s)[1..]
  {
    assert ([c] + s)[1..] == s;
  }

  lemma WithTailCons(cell: string, rest: Row, r: string)
    requires rest != []
    ensures WithTail([cell] + rest, r) == [cell] + WithTail(rest, r)
  {
  }

  lemma WithTailFirst(c: char, rest: Row, r: string)
    requires rest != []
    ensures WithTail([[c] + rest[0]] + rest[1..], r) == [[c] + WithTail(rest, r)[0]] + WithTail(rest, r)[1..]
  {
    if |rest| == 1 {
      assert [c] + (rest[0] + r) == [c] + rest[0] + r;
    }
  }

  lemma {:induction false} SplitBefore(s: string, r: string)
    requires '|' !in r
    ensures SplitPipe(s + r) == WithTail(SplitPipe(s), r)
  {
    if s == "" {
      assert s + r == r && "" + r == r;
      SplitLastCell(r);
    } else {
      assert s == [s[0]] + s[1..] && s + r == [s[0]] + (s[1..] + r);
      SplitCons(s[0], s[1..]);
      SplitCons(s[0], s[1..] + r);
      SplitBefore(s[1..], r);
      WithTailCons("", SplitPipe(s[1..]), r);
      WithTailFirst(s[0], SplitPipe(s[1..]), r);
    }
  }

  /** White space around a line does not show in its cells. */
  lemma SplitPaddedLeft(l: string, s: string)
    requires AllSpace(l)
    ensures StripAll(SplitPipe(l + s)) == StripAll(SplitPipe(s))
  {
    SpaceFree(l);
    SplitAfter(l, s);
    StripLeftOff(l, SplitPipe(s)[0]);
    StripLeftThenStrip(l + SplitPipe(s)[0]);
    StripLeftThenStrip(SplitPipe(s)[0]);
  }

  lemma SplitPaddedRight(s: string, r: string)
    requires AllSpace(r)
    ensures StripAll(SplitPipe(s + r)) == StripAll(SplitPipe(s))
  {
    SpaceFree(r);
    SplitBefore(s, r);
    StripAllTail(SplitPipe(s), r);
  }

  lemma StripAllTail(cells: Row, r: string)
    requires cells != [] && AllSpace(r)
    ensures StripAll(WithTail(cells, r)) == StripAll(cells)
  {
    StripPaddedRight(cells[|cells| - 1], r);
  }

  lemma SpaceFree(l: string)
    requires AllSpace(l)
    ensures '|' !in l
  {
  }

  lemma StripPaddedRight(s: string, r: string)
    requires AllSpace(r)
    ensures Strip(s + r) == Strip(s)
  {
    var l, q := StripParts(s);
    assert s + r == l + Strip(s) + (q + r);
    StripUnique(l, Strip(s), q + r);
  }

  /** The joined cells without the white space that ends the line. */
  function Core(joined: string, lead: bool, trail: bool): string {
    var left := if lead then joined else StripLeft(joined);
    if trail then left else StripRight(left)
  }

  lemma CoreCells(joined: string, lead: bool, trail: bool)
    ensures StripAll(SplitPipe(Core(joined, lead, trail))) == StripAll(SplitPipe(joined))
  {
    var left := if lead then joined else StripLeft(joined);
    var l := StripLeftParts(joined);
    SplitPaddedLeft(l, StripLeft(joined));
    var r := StripRightParts(left);
    SplitPaddedRight(StripRight(left), r);
  }

  lemma {:induction false} JoinPipesEnd(raw: Row) returns (front: string)
    requires raw != []
    ensures JoinPipes(raw) == front + raw[|raw| - 1]
  {
    if |raw| == 1 {
      front := "";
    } else {
      var rest := JoinPipesEnd(raw[1..]);
      front := raw[0] + "|" + rest;
    }
  }

  lemma JoinPipesStart(raw: Row) returns (back: string)
    requires raw != []
    ensures JoinPipes(raw) == raw[0] + back
  {
    back := if |raw| == 1 then "" else "|" + JoinPipes(raw[1..]);
  }

  predicate StartsWithText(s: string) {
    s != "" && TextChar(s[0])
  }

  predicate EndsWithText(s: string) {
    s != "" && TextChar(s[|s| - 1])
  }

  /** Where an outer pipe is missing the core begins, or ends, with a character of the outer cell. */
  lemma CoreEnds(raw: Row, lead: bool, trail: bool)
    requires raw != [] && PipeFreeCells(raw) && SetOff(raw, lead, trail)
    ensures !lead ==> StartsWithText(Core(JoinPipes(raw), lead, trail))
    ensures !trail ==> EndsWithText(Core(JoinPipes(raw), lead, trail))
  {
    var joined := JoinPipes(raw);
    if !lead {
      CoreStart(raw);
    }
    if !trail {
      CoreEnd(raw, lead);
    }
  }

  lemma CoreStart(raw: Row)
    requires raw != [] && PipeFreeCells(raw) && !Blank(raw[0])
    ensures StartsWithText(StripLeft(JoinPipes(raw)))
  {
    var back := JoinPipesStart(raw);
    BlankIsAllSpace(raw[0]);
    StripLeftFront(raw[0], back);
    StripLeftKeepsAbsence(raw[0], '|');
    assert StripLeft(raw[0])[0] in StripLeft(raw[0]);
  }

  lemma CoreEnd(raw: Row, lead: bool)
    requires raw != [] && PipeFreeCells(raw) && !Blank(raw[|raw| - 1]) && (lead || !Blank(raw[0]))
    ensures EndsWithText(StripRight(if lead then JoinPipes(raw) else StripLeft(JoinPipes(raw))))
  {
    var last := raw[|raw| - 1];
    var front := JoinPipesEnd(raw);
    var l := StripLeftParts(JoinPipes(raw));
    BlankIsAllSpace(last);
    StripRightBack(front, last);
    StripRightKeepsAbsence(last, '|');
    var tail := StripRight(last);
    assert tail[|tail| - 1] in tail;
    EndOfStripped(JoinPipes(raw));
  }

  /** Stripping on the left does not touch the end of a text that is not blank. */
  lemma EndOfStripped(s: string)
    requires EndsWithText(StripRight(s))
    ensures EndsWithText(StripRight(StripLeft(s)))
  {
    var l := StripLeftParts(s);
    if AllSpace(StripLeft(s)) {
      assert AllSpace(s);
      StripRightEmpty(s);
    }
    StripRightBack(l, StripLeft(s));
  }

  /** A line with its white space stripped. */
  lemma StripLine(pre: string, joined: string, lead: bool, trail: bool, post: string)
    requires AllSpace(pre) && AllSpace(post)
    requires !lead ==> StartsWithText(Core(joined, lead, trail))
    requires !trail ==> EndsWithText(Core(joined, lead, trail))
    ensures Strip(pre + (Bar(lead) + joined + Bar(trail)) + post) == Bar(lead) + Core(joined, lead, trail) + Bar(trail)
  {
    var core := Core(joined, lead, trail);
    var left := if lead then joined else StripLeft(joined);
    var l, r := "", "";
    if !lead {
      l := StripLeftParts(joined);
    }
    if !trail {
      r := StripRightParts(left);
    }
    assert joined == l + left && left == core + r;
    var line := Bar(lead) + core + Bar(trail);
    Regroup(pre, lead, l, core, r, trail, post);
    LineTrimmed(core, lead, trail);
    StripUnique(pre + l, line, r + post);
  }

  lemma LineTrimmed(core: string, lead: bool, trail: bool)
    requires !lead ==> StartsWithText(core)
    requires !trail ==> EndsWithText(core)
    ensures Trimmed(Bar(lead) + core + Bar(trail))
  {
    var line := Bar(lead) + core + Bar(trail);
    if !lead {
      assert line[0] == core[0];
    }
    if !trail {
      assert line[|line| - 1] == core[|core| - 1];
    }
  }

  lemma Regroup(pre: string, lead: bool, l: string, core: string, r: string, trail: bool, post: string)
    requires (lead ==> l == "") && (trail ==> r == "")
    ensures pre + (Bar(lead) + (l + (core + r)) + Bar(trail)) + post
         == (pre + l) + (Bar(lead) + core + Bar(trail)) + (r + post)
  {
  }

  lemma DropBars(core: string, lead: bool, trail: bool)
    requires !lead ==> StartsWithText(core)
    requires !trail ==> EndsWithText(core)
    ensures DropOuterPipes(Bar(lead) + core + Bar(trail)) == core
  {
    var line := Bar(lead) + core + Bar(trail);
    var a := core + Bar(trail);
    if lead {
      assert line[1..] == a;
    } else {
      assert line == a && a[0] == core[0];
    }
    if trail {
      assert a[..|a| - 1] == core;
    } else {
      assert a == core;
    }
  }

  /**
    Which row a line is: the stripped cells between its pipes, whether the line has outer
    pipes or not and however it is spaced, as long as every cell is set off.
   */
  lemma ParseLine(pre: string, raw: Row, lead: bool, trail: bool, post: string)
    requires AllSpace(pre) && AllSpace(post)
    requires raw != [] && PipeFreeCells(raw) && HasText(StripAll(raw)) && SetOff(raw, lead, trail)
    ensures ParsePipeRow(pre + LineOf(raw, lead, trail) + post) == StripAll(raw)
  {
    var joined := JoinPipes(raw);
    var core := Core(joined, lead, trail);
    CoreEnds(raw, lead, trail);
    StripLine(pre, joined, lead, trail, post);
    DropBars(core, lead, trail);
    CoreCells(joined, lead, trail);
    SplitJoinedCells(raw);
    PipeInLine(raw, lead, trail, core);
  }

  lemma PipeInLine(raw: Row, lead: bool, trail: bool, core: string)
    requires raw != [] && PipeFreeCells(raw) && (|raw| > 1 || lead || trail)
    requires StripAll(SplitPipe(core)) == StripAll(raw)
    ensures '|' in Bar(lead) + core + Bar(trail)
  {
    if '|' !in core {
      SplitLastCell(core);
    }
  }

  // ----- printer -----

  /** With or without the outer pipes. */
  datatype Outer = Outer(lead: bool, trail: bool)

  function Pad(cell: string): string {
    " " + cell + " "
  }

  function Padded(cells: Row): Row {
    Map(Pad, cells)
  }

  function RenderRow(cells: Row, outer: Outer): string
    requires cells != []
  {
    LineOf(Padded(cells), outer.lead, outer.trail)
  }

  /** Printed with these outer pipes, no cell gets lost: an empty outer cell needs its pipe. */
  predicate Shown(cells: Row, outer: Outer)
    requires cells != []
  {
    && (outer.lead || cells[0] != "") && (outer.trail || cells[|cells| - 1] != "")
    && (|cells| > 1 || outer.lead || outer.trail)
  }

  lemma PaddedCells(cells: Row)
    requires CleanCells(cells)
    ensures PipeFreeCells(Padded(cells)) && StripAll(Padded(cells)) == cells
    ensures forall k :: 0 <= k < |cells| ==> (Blank(Padded(cells)[k]) <==> cells[k] == "")
  {
    forall k | 0 <= k < |cells| ensures '|' !in Padded(cells)[k] && Strip(Padded(cells)[k]) == cells[k] {
      assert CleanCell(cells[k]);
      StripPadded(cells[k]);
    }
  }

  lemma ParseShown(pre: string, cells: Row, outer: Outer, post: string)
    requires AllSpace(pre) && AllSpace(post) && CleanRow(cells) && Shown(cells, outer)
    ensures ParsePipeRow(pre + RenderRow(cells, outer) + post) == cells
  {
    PaddedCells(cells);
    ParseLine(pre, Padded(cells), outer.lead, outer.trail, post);
  }

  /** An empty first cell without its pipe merges with the white space before the line. */
  lemma LoseFirst(pre: string, cells: Row, outer: Outer, post: string)
    requires |cells| > 1 && !outer.lead && cells[0] == ""
    ensures pre + RenderRow(cells, outer) + post == (pre + "  ") + RenderRow(cells[1..], outer.(lead := true)) + post
  {
    assert Padded(cells)[1..] == Padded(cells[1..]);
    assert Pad("") == "  ";
    RegroupFirst(pre, JoinPipes(Padded(cells[1..])), Bar(outer.trail), post);
  }

  lemma RegroupFirst(pre: string, joined: string, bar: string, post: string)
    ensures pre + ("" + ("  " + ("|" + joined)) + bar) + post == (pre + "  ") + ("|" + joined + bar) + post
  {
  }

  lemma {:induction false} JoinPipesSnoc(raw: Row, last: string)
    requires raw != []
    ensures JoinPipes(raw + [last]) == JoinPipes(raw) + "|" + last
  {
    if |raw| == 1 {
      assert (raw + [last])[1..] == [last] && JoinPipes([last]) == last;
    } else {
      assert (raw + [last])[1..] == raw[1..] + [last];
      JoinPipesSnoc(raw[1..], last);
    }
  }

  lemma LoseLast(pre: string, cells: Row, outer: Outer, post: string)
    requires |cells| > 1 && !outer.trail && cells[|cells| - 1] == ""
    ensures pre + RenderRow(cells, outer) + post
         == pre + RenderRow(cells[..|cells| - 1], outer.(trail := true)) + ("  " + post)
  {
    var front := cells[..|cells| - 1];
    assert Padded(cells) == Padded(front) + [Pad("")];
    assert Pad("") == "  ";
    JoinPipesSnoc(Padded(front), "  ");
    RegroupLast(pre, Bar(outer.lead), JoinPipes(Padded(front)), post);
  }

  lemma RegroupLast(pre: string, bar: string, joined: string, post: string)
    ensures pre + (bar + (joined + "|" + "  ") + "") + post == pre + (bar + joined + "|") + ("  " + post)
  {
  }

  /**
    Printed with or without its outer pipes, a row parses back if and only if no empty
    outer cell lacks its pipe and a single cell has one; otherwise cells are lost.
   */
  lemma {:induction false} ParseRendered(pre: string, cells: Row, outer: Outer, post: string)
    requires AllSpace(pre) && AllSpace(post) && CleanRow(cells)
    ensures |ParsePipeRow(pre + RenderRow(cells, outer) + post)| <= |cells|
    ensures ParsePipeRow(pre + RenderRow(cells, outer) + post) == cells <==> Shown(cells, outer)
    decreases |cells|
  {
    if Shown(cells, outer) {
      ParseShown(pre, cells, outer, post);
    } else if !outer.lead && cells[0] == "" {
      LoseFirst(pre, cells, outer, post);
      RestHasText(cells);
      ParseRendered(pre + "  ", cells[1..], outer.(lead := true), post);
    } else if !outer.trail && cells[|cells| - 1] == "" {
      LoseLast(pre, cells, outer, post);
      FrontHasText(cells);
      ParseRendered(pre, cells[..|cells| - 1], outer.(trail := true), "  " + post);
    } else {
      LoneCell(pre, cells, outer, post);
    }
  }

  lemma RestHasText(cells: Row)
    requires CleanRow(cells) && cells[0] == ""
    ensures |cells| > 1 && CleanRow(cells[1..])
  {
    var i :| 0 <= i < |cells| && cells[i] != "";
    assert cells[1..][i - 1] != "";
  }

  lemma FrontHasText(cells: Row)
    requires CleanRow(cells) && cells[|cells| - 1] == ""
    ensures |cells| > 1 && CleanRow(cells[..|cells| - 1])
  {
    var i :| 0 <= i < |cells| && cells[i] != "";
    assert cells[..|cells| - 1][i] != "";
  }

  lemma LoneCell(pre: string, cells: Row, outer: Outer, post: string)
    requires AllSpace(pre) && AllSpace(post) && CleanRow(cells) && |cells| == 1 && !outer.lead && !outer.trail
    ensures ParsePipeRow(pre + RenderRow(cells, outer) + post) == []
  {
    PaddedCells(cells);
    SpaceFree(pre);
    SpaceFree(post);
    assert RenderRow(cells, outer) == Padded(cells)[0];
    PipeFreeIsNoRow(pre + RenderRow(cells, outer) + post);
  }

  /** Printing what was parsed and parsing it again changes nothing, for any line. */
  lemma ParseRenderParse(line: string)
    requires ParsePipeRow(line) != []
    ensures ParsePipeRow(RenderRow(ParsePipeRow(line), Outer(true, true))) == ParsePipeRow(line)
  {
    ParsedClean(line);
    ParseFramed(ParsePipeRow(line));
  }

  lemma ParseFramed(cells: Row)
    requires CleanRow(cells)
    ensures ParsePipeRow(RenderRow(cells, Outer(true, true))) == cells
  {
    var line := RenderRow(cells, Outer(true, true));
    ParseShown("", cells, Outer(true, true), "");
    assert "" + line + "" == line;
  }

  lemma PipeFreeIsNoRow(line: string)
    requires '|' !in line
    ensures ParsePipeRow(line) == []
  {
    RowIff(line);
  }
}
