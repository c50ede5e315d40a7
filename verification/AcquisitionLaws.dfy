/** What holds of every acquisition that returns, and exactly when one does. */
module AcquisitionLaws {
  import opened Text
  import opened Seqs
  import PipeRows
  import opened Lines
  import opened MarkdownTables
  import opened PriceKnowledge
  import opened PriceAcquisition

  // ----- properties that pass from shares to their concatenation -----

  ghost predicate Additive(p: Part -> bool) {
    p(NOTHING) && forall a: Part, b: Part :: p(a) && p(b) ==> p(a.Plus(b))
  }

  lemma {:induction false} ConcatKeeps(p: Part -> bool, outcomes: seq<Outcome<Part>>)
    requires Additive(p)
    requires forall k :: 0 <= k < |outcomes| && outcomes[k].Returned? ==> p(outcomes[k].value)
    ensures Concat(outcomes).Returned? ==> p(Concat(outcomes).value)
  {
    if outcomes != [] {
      ConcatKeeps(p, outcomes[..|outcomes| - 1]);
    }
  }

  lemma {:induction false} ConcatReturns(outcomes: seq<Outcome<Part>>)
    ensures Concat(outcomes).Returned? <==> forall k :: 0 <= k < |outcomes| ==> outcomes[k].Returned?
  {
    if outcomes != [] {
      ConcatReturns(outcomes[..|outcomes| - 1]);
    }
  }

  lemma JoinKeeps(p: Part -> bool, header: Part, outcomes: seq<Outcome<Part>>)
    requires Additive(p) && p(header)
    requires forall k :: 0 <= k < |outcomes| && outcomes[k].Returned? ==> p(outcomes[k].value)
    ensures var r := Join(Returned(header), Concat(outcomes)); r.Returned? ==> p(r.value)
  {
    ConcatKeeps(p, outcomes);
  }

  function ColumnsOf(job: Job, ut: UnitTable): seq<ColumnRole> {
    ColumnRoles(job.adapter, ut.source.id, ut.table.headers)
  }

  /** The shares of a table's header and of its rows all satisfy `p`. */
  ghost predicate SharesSatisfy(p: Part -> bool, job: Job, ut: UnitTable) {
    && p(HeaderPart(ut, ColumnsOf(job, ut)))
    && var outcomes := RowOutcomes(job, ut, ColumnsOf(job, ut));
       forall k :: 0 <= k < |outcomes| && outcomes[k].Returned? ==> p(outcomes[k].value)
  }

  const NO_TABLES := NOTHING.(issues := [Issue(NeedsHumanReview, [])])

  /** A law of all shares is a law of every result. */
  lemma {:induction false} ResultKeeps(p: Part -> bool, job: Job, units: seq<SourceUnit>)
    requires Additive(p) && p(NO_TABLES)
    requires forall ut :: ut in TablesOfUnits(units) ==> SharesSatisfy(p, job, ut)
    ensures Acquisition(job, units).Returned? ==> p(Acquisition(job, units).value.part)
  {
    var uts := TablesOfUnits(units);
    var outcomes := TableOutcomes(job, uts);
    forall i | 0 <= i < |outcomes| && outcomes[i].Returned? ensures p(outcomes[i].value) {
      assert SharesSatisfy(p, job, uts[i]);
      JoinKeeps(p, HeaderPart(uts[i], ColumnsOf(job, uts[i])), RowOutcomes(job, uts[i], ColumnsOf(job, uts[i])));
    }
    ConcatKeeps(p, outcomes);
  }

  /** A row's share: the row itself, and either one candidate or one issue, naming it. */
  ghost predicate ShareOfRow(job: Job, p: Part, row: AcquiredRow) {
    && p.rows == [row] && p.columns == []
    && ((|p.candidates| == 1 && p.issues == [] && NamesRow(job, p.candidates[0].ref, row)
           && p.candidates[0].documentId == job.documentId && ValidCandidate(p.candidates[0]))
        || (p.candidates == [] && |p.issues| == 1 && IssueNamesRow(job, p.issues[0], row)))
  }

  predicate IssueNamesRow(job: Job, issue: Issue, row: AcquiredRow) {
    |issue.refs| == 1 && NamesRow(job, issue.refs[0], row)
  }

  predicate NamesRow(job: Job, ref: SourceRef, row: AcquiredRow) {
    ref.documentId == job.documentId && ref.rowId == Some(row.id) && ref.unitId == row.unitId
  }

  /** What the constructor of `PriceFactCandidate` accepts, still to be reviewed. */
  predicate ValidCandidate(c: Candidate) {
    && !Blank(c.id) && !Blank(c.projectId) && !Blank(c.documentId) && !Blank(c.itemName) && !Blank(c.unit)
    && ValueShape(c.valueKind, c.amount, c.range, c.priceText)
    && c.status == CandidateNeedsReview
  }

  lemma {:induction false} PriceFactValid(job: Job, rowId: string, item: string, unit: string, ref: SourceRef,
                                          fields: seq<Field>, parse: PriceParse)
    requires !Blank(item) && !Blank(unit)
    ensures var r := FactFromPrice(job, rowId, item, unit, ref, fields, parse);
      r.Returned? && r.value.Some? ==>
        ValidCandidate(r.value.value) && r.value.value.documentId == job.documentId && r.value.value.ref == ref
  {
    var id: Named := job.adapter.candidateId(rowId);
    assert !Blank(id);
    var r := FactFromPrice(job, rowId, item, unit, ref, fields, parse);
    if r.Returned? && r.value.Some? {
      var c := r.value.value;
      assert c.id == id && c.itemName == item && c.unit == unit && c.status == CandidateNeedsReview;
      assert ValueShape(c.valueKind, c.amount, c.range, c.priceText);
    }
  }

  lemma {:induction false} FactValid(job: Job, ut: UnitTable, row: AcquiredRow, columns: seq<ColumnRole>,
                                     fields: seq<Field>)
    ensures var r := FactFromRow(job, ut, row, columns, fields);
      r.Returned? && r.value.Some? ==>
        var c := r.value.value;
        ValidCandidate(c) && c.documentId == job.documentId && NamesRow(job, c.ref, row)
  {
    var priced := PricedItem(columns, row);
    if priced.Some? {
      var (item, price) := priced.value;
      CellTextNamed(row, FirstColumn(columns, {ItemName}).value);
      PriceFactValid(job, row.id, item, UnitText(job.adapter, columns, row, price),
                     RowRef(job.documentId, row, RowQuote(ut.table.headers, row)), fields,
                     job.adapter.parsePrice(price));
    }
  }

  lemma {:induction false} RowShares(job: Job, ut: UnitTable, columns: seq<ColumnRole>, k: nat)
    requires k < |ut.table.rows| && RowPart(job, ut, columns, k).Returned?
    ensures ShareOfRow(job, RowPart(job, ut, columns, k).value, RowAt(job.adapter, ut, k))
  {
    var row := RowAt(job.adapter, ut, k);
    FactValid(job, ut, row, columns, FieldsOf(ut.source.documentId, row, columns));
  }

  // ----- conservation: every row is accounted for once -----

  function Tally<T>(f: T -> multiset<string>, xs: seq<T>): multiset<string> {
    if xs == [] then multiset{} else Tally(f, xs[..|xs| - 1]) + f(xs[|xs| - 1])
  }

  lemma {:induction false} TallyConcat<T>(f: T -> multiset<string>, xs: seq<T>, ys: seq<T>)
    ensures Tally(f, xs + ys) == Tally(f, xs) + Tally(f, ys)
  {
    if ys == [] {
      assert xs + ys == xs;
    } else {
      assert (xs + ys)[..|xs + ys| - 1] == xs + ys[..|ys| - 1];
      TallyConcat(f, xs, ys[..|ys| - 1]);
    }
  }

  function OwnId(row: AcquiredRow): multiset<string> {
    multiset{row.id}
  }

  function RefRow(ref: SourceRef): multiset<string> {
    if ref.rowId.Some? then multiset{ref.rowId.value} else multiset{}
  }

  function CandidateRow(c: Candidate): multiset<string> {
    RefRow(c.ref)
  }

  function IssueRow(i: Issue): multiset<string> {
    Tally(RefRow, i.refs)
  }

  /** The rows, counted by id, are those named by candidates and those named by issues. */
  predicate Balanced(p: Part) {
    Tally(OwnId, p.rows) == Tally(CandidateRow, p.candidates) + Tally(IssueRow, p.issues)
  }

  lemma BalancedAdditive()
    ensures Additive(Balanced)
  {
    forall a: Part, b: Part | Balanced(a) && Balanced(b) ensures Balanced(a.Plus(b)) {
      TallyConcat(OwnId, a.rows, b.rows);
      TallyConcat(CandidateRow, a.candidates, b.candidates);
      TallyConcat(IssueRow, a.issues, b.issues);
    }
  }

  lemma {:induction false} TallyOne<T>(f: T -> multiset<string>, x: T)
    ensures Tally(f, [x]) == f(x)
  {
  }

  lemma RowBalanced(job: Job, p: Part, row: AcquiredRow)
    requires ShareOfRow(job, p, row)
    ensures Balanced(p)
  {
    TallyOne(OwnId, row);
    if p.candidates != [] {
      TallyOne(CandidateRow, p.candidates[0]);
    } else {
      TallyOne(IssueRow, p.issues[0]);
      TallyOne(RefRow, p.issues[0].refs[0]);
    }
  }

  lemma {:induction false} NoRowTally(issues: seq<Issue>)
    requires forall i :: i in issues ==> IssueRow(i) == multiset{}
    ensures Tally(IssueRow, issues) == multiset{}
  {
    if issues != [] {
      NoRowTally(issues[..|issues| - 1]);
    }
  }

  lemma HeaderBalanced(ut: UnitTable, columns: seq<ColumnRole>)
    ensures Balanced(HeaderPart(ut, columns))
  {
    forall i | i in TableIssues(ut, columns) ensures IssueRow(i) == multiset{} {
      TallyOne(RefRow, i.refs[0]);
    }
    NoRowTally(TableIssues(ut, columns));
  }

  lemma {:induction false} TableBalanced(job: Job, ut: UnitTable)
    ensures SharesSatisfy(Balanced, job, ut)
  {
    HeaderBalanced(ut, ColumnsOf(job, ut));
    var outcomes := RowOutcomes(job, ut, ColumnsOf(job, ut));
    forall k | 0 <= k < |outcomes| && outcomes[k].Returned? ensures Balanced(outcomes[k].value) {
      RowShares(job, ut, ColumnsOf(job, ut), k);
      RowBalanced(job, outcomes[k].value, RowAt(job.adapter, ut, k));
    }
  }

  /**
    Whenever `acquire` returns, the rows are exactly the rows named by fact candidates
    together with the rows named by row-level issues, with multiplicity.
   */
  lemma {:induction false} RowsAccountedFor(job: Job, units: seq<SourceUnit>)
    requires Acquisition(job, units).Returned?
    ensures Balanced(Acquisition(job, units).value.part)
  {
    BalancedAdditive();
    NoRowTally(NO_TABLES.issues);
    forall ut | ut in TablesOfUnits(units) ensures SharesSatisfy(Balanced, job, ut) {
      TableBalanced(job, ut);
    }
    ResultKeeps(Balanced, job, units);
  }

  // ----- grounding and the constructor invariants -----

  ghost predicate KnownUnit(units: seq<SourceUnit>, id: string) {
    exists u :: u in units && u.id == id
  }

  /** The candidate points at a row of the part, in the document of the job. */
  ghost predicate PointsAtRow(job: Job, p: Part, c: Candidate) {
    c.documentId == job.documentId && exists row :: row in p.rows && NamesRow(job, c.ref, row)
  }

  /** What the constructors of candidate and result demand. */
  ghost predicate Grounded(job: Job, units: seq<SourceUnit>, p: Part) {
    && (forall row :: row in p.rows ==> KnownUnit(units, row.unitId))
    && (forall c :: c in p.columns ==> KnownUnit(units, c.unitId))
    && (forall c :: c in p.candidates ==> PointsAtRow(job, p, c) && ValidCandidate(c))
  }

  ghost function GroundedFor(job: Job, units: seq<SourceUnit>): Part -> bool {
    (p: Part) => Grounded(job, units, p)
  }

  lemma {:induction false} GroundedAdditive(job: Job, units: seq<SourceUnit>)
    ensures Additive(GroundedFor(job, units))
  {
  }

  lemma {:induction false} RowGrounded(job: Job, units: seq<SourceUnit>, p: Part, row: AcquiredRow)
    requires ShareOfRow(job, p, row) && KnownUnit(units, row.unitId)
    ensures Grounded(job, units, p)
  {
    assert row in p.rows;
  }

  lemma {:induction false} ColumnsOfUnit(adapter: Adapter, unitId: string, headers: seq<string>)
    ensures forall c :: c in ColumnRoles(adapter, unitId, headers) ==> c.unitId == unitId
  {
  }

  lemma {:induction false} TableGrounded(job: Job, units: seq<SourceUnit>, ut: UnitTable)
    requires ut.source in units
    ensures SharesSatisfy(GroundedFor(job, units), job, ut)
  {
    ColumnsOfUnit(job.adapter, ut.source.id, ut.table.headers);
    assert KnownUnit(units, ut.source.id);
    var outcomes := RowOutcomes(job, ut, ColumnsOf(job, ut));
    forall k | 0 <= k < |outcomes| && outcomes[k].Returned? ensures Grounded(job, units, outcomes[k].value) {
      RowShares(job, ut, ColumnsOf(job, ut), k);
      RowGrounded(job, units, outcomes[k].value, RowAt(job.adapter, ut, k));
    }
  }

  /**
    Whenever `acquire` returns: its units belong to the document, every row and column
    role names one of its units, and every candidate is valid, of this document, and its
    source reference names a row of the result in the unit of that row.
   */
  lemma {:induction false} ResultGrounded(job: Job, units: seq<SourceUnit>)
    requires Acquisition(job, units).Returned?
    ensures var r := Acquisition(job, units).value;
      && !Blank(r.documentId) && UnitsBelong(r.units, r.documentId) && r.units == units
      && Grounded(job, units, r.part)
  {
    GroundedAdditive(job, units);
    TablesGrounded(job, units);
    NothingGrounded(job, units);
    ResultKeeps(GroundedFor(job, units), job, units);
    assert GroundedFor(job, units)(Acquisition(job, units).value.part);
  }

  lemma NothingGrounded(job: Job, units: seq<SourceUnit>)
    ensures GroundedFor(job, units)(NO_TABLES)
  {
  }

  lemma TablesGrounded(job: Job, units: seq<SourceUnit>)
    ensures forall ut :: ut in TablesOfUnits(units) ==> SharesSatisfy(GroundedFor(job, units), job, ut)
  {
    forall ut | ut in TablesOfUnits(units) ensures SharesSatisfy(GroundedFor(job, units), job, ut) {
      TablesHaveRows(units, ut);
      TableGrounded(job, units, ut);
    }
  }

  // ----- one acquisition row per parsed data row -----

  function RowsOfTable(adapter: Adapter, ut: UnitTable): seq<AcquiredRow> {
    seq(|ut.table.rows|, k requires 0 <= k < |ut.table.rows| => RowAt(adapter, ut, k))
  }

  function RowsOfTables(adapter: Adapter, uts: seq<UnitTable>): seq<AcquiredRow> {
    if uts == [] then [] else RowsOfTables(adapter, uts[..|uts| - 1]) + RowsOfTable(adapter, uts[|uts| - 1])
  }

  /** Each share brings the rows given beside it. */
  lemma {:induction false} ConcatRows(outcomes: seq<Outcome<Part>>, rows: seq<AcquiredRow>)
    requires Concat(outcomes).Returned? && |rows| == |outcomes|
    requires forall k :: 0 <= k < |outcomes| && outcomes[k].Returned? ==> outcomes[k].value.rows == [rows[k]]
    ensures Concat(outcomes).value.rows == rows
  {
    if outcomes != [] {
      ConcatRows(outcomes[..|outcomes| - 1], rows[..|rows| - 1]);
    }
  }

  lemma TableRows(job: Job, ut: UnitTable)
    requires TablePart(job, ut).Returned?
    ensures TablePart(job, ut).value.rows == RowsOfTable(job.adapter, ut)
  {
    var columns := ColumnsOf(job, ut);
    var outcomes := RowOutcomes(job, ut, columns);
    forall k | 0 <= k < |outcomes| && outcomes[k].Returned?
      ensures outcomes[k].value.rows == [RowAt(job.adapter, ut, k)]
    {
      RowShares(job, ut, columns, k);
    }
    ConcatRows(outcomes, RowsOfTable(job.adapter, ut));
  }

  lemma {:induction false} TablesRows(job: Job, uts: seq<UnitTable>)
    requires Concat(TableOutcomes(job, uts)).Returned?
    ensures Concat(TableOutcomes(job, uts)).value.rows == RowsOfTables(job.adapter, uts)
  {
    if uts != [] {
      var init, last := uts[..|uts| - 1], uts[|uts| - 1];
      TableOutcomesStep(job, uts);
      TablesRows(job, init);
      TableRows(job, last);
    }
  }

  lemma TableOutcomesStep(job: Job, uts: seq<UnitTable>)
    requires uts != []
    ensures var init, last := uts[..|uts| - 1], uts[|uts| - 1];
      Concat(TableOutcomes(job, uts)) == Join(Concat(TableOutcomes(job, init)), TablePart(job, last))
  {
    MapInit(PartOfTable(job), uts);
    ConcatSnoc(TableOutcomes(job, uts[..|uts| - 1]), PartOfTable(job)(uts[|uts| - 1]));
  }

  lemma ConcatSnoc(outcomes: seq<Outcome<Part>>, last: Outcome<Part>)
    ensures Concat(outcomes + [last]) == Join(Concat(outcomes), last)
  {
    assert (outcomes + [last])[..|outcomes|] == outcomes;
  }

  /** The acquisition rows are the data rows of all tables of all units, in order, one each. */
  lemma {:induction false} RowsComplete(job: Job, units: seq<SourceUnit>)
    requires Acquisition(job, units).Returned?
    ensures Acquisition(job, units).value.part.rows == RowsOfTables(job.adapter, TablesOfUnits(units))
  {
    if TablesOfUnits(units) != [] {
      TablesRows(job, TablesOfUnits(units));
    }
  }

  // ----- row ids -----

  ghost predicate InjectiveIds(adapter: Adapter) {
    forall u, s, k, u', s', k' :: adapter.rowId(u, s, k) == adapter.rowId(u', s', k') ==> u == u' && s == s' && k == k'
  }

  predicate SameTable(a: UnitTable, b: UnitTable) {
    a.source.id == b.source.id && a.table.startLine == b.table.startLine
  }

  predicate DistinctTables(uts: seq<UnitTable>) {
    forall i, j :: 0 <= i < j < |uts| ==> !SameTable(uts[i], uts[j])
  }

  lemma {:induction false} RowIdsOfTablesDiffer(adapter: Adapter, a: UnitTable, b: UnitTable, row: AcquiredRow,
                                                other: AcquiredRow)
    requires InjectiveIds(adapter) && !SameTable(a, b)
    requires row in RowsOfTable(adapter, a) && other in RowsOfTable(adapter, b)
    ensures row.id != other.id
  {
  }

  lemma {:induction false} RowOrigin(adapter: Adapter, uts: seq<UnitTable>, row: AcquiredRow) returns (i: nat)
    requires row in RowsOfTables(adapter, uts)
    ensures i < |uts| && row in RowsOfTable(adapter, uts[i])
  {
    if row in RowsOfTable(adapter, uts[|uts| - 1]) {
      i := |uts| - 1;
    } else {
      i := RowOrigin(adapter, uts[..|uts| - 1], row);
    }
  }

  predicate DistinctRowIds(rows: seq<AcquiredRow>) {
    forall i, j :: 0 <= i < j < |rows| ==> rows[i].id != rows[j].id
  }

  lemma {:induction false} RowIdsDistinct(adapter: Adapter, uts: seq<UnitTable>)
    requires InjectiveIds(adapter) && DistinctTables(uts)
    ensures DistinctRowIds(RowsOfTables(adapter, uts))
  {
    if uts != [] {
      var init, last := uts[..|uts| - 1], uts[|uts| - 1];
      RowIdsDistinct(adapter, init);
      var before, own := RowsOfTables(adapter, init), RowsOfTable(adapter, last);
      forall i, j | 0 <= i < |before| && 0 <= j < |own| ensures before[i].id != own[j].id {
        var k := RowOrigin(adapter, init, before[i]);
        assert !SameTable(uts[k], last);
        RowIdsOfTablesDiffer(adapter, uts[k], last, before[i], own[j]);
      }
      assert DistinctRowIds(own);
    }
  }

  predicate DistinctUnits(units: seq<SourceUnit>) {
    forall i, j :: 0 <= i < j < |units| ==> units[i].id != units[j].id
  }

  /** Tables of one unit start on different lines, because their spans do not overlap. */
  lemma TablesOfUnitDistinct(u: SourceUnit)
    ensures DistinctTables(TablesOfUnit(u))
  {
    var ts := TablesOfText(u.text);
    ScanIsCover(ReadLines(SplitLines(u.text)), 0);
    forall i, j | 0 <= i < j < |ts| ensures ts[i].startLine < ts[j].startLine {
      assert ts[i].End() <= ts[j].startLine;
    }
  }

  lemma {:induction false} TablesDistinct(units: seq<SourceUnit>)
    requires DistinctUnits(units)
    ensures DistinctTables(TablesOfUnits(units))
  {
    if units != [] {
      var init, last := units[..|units| - 1], units[|units| - 1];
      TablesDistinct(init);
      TablesOfUnitDistinct(last);
      var before, own := TablesOfUnits(init), TablesOfUnit(last);
      forall i, j | 0 <= i < |before| && 0 <= j < |own| ensures !SameTable(before[i], own[j]) {
        TablesHaveRows(init, before[i]);
      }
    }
  }

  lemma {:induction false} TallyOfDistinct(rows: seq<AcquiredRow>, row: AcquiredRow)
    requires DistinctRowIds(rows) && row in rows
    ensures Tally(OwnId, rows)[row.id] == 1
  {
    var init, last := rows[..|rows| - 1], rows[|rows| - 1];
    if row == last {
      TallyOfAbsent(init, row.id);
    } else {
      assert row in init;
      TallyOfDistinct(init, row);
    }
  }

  lemma {:induction false} TallyOfAbsent(rows: seq<AcquiredRow>, id: string)
    requires forall row :: row in rows ==> row.id != id
    ensures Tally(OwnId, rows)[id] == 0
  {
    if rows != [] {
      TallyOfAbsent(rows[..|rows| - 1], id);
    }
  }

  /**
    With distinct unit ids and collision-free row ids, every row of a returned result is
    named by exactly one fact candidate or by exactly one row-level issue, never by both.
   */
  lemma {:induction false} EachRowOnce(job: Job, units: seq<SourceUnit>, row: AcquiredRow)
    requires Acquisition(job, units).Returned? && row in Acquisition(job, units).value.part.rows
    requires InjectiveIds(job.adapter) && DistinctUnits(units)
    ensures var p := Acquisition(job, units).value.part;
      Tally(CandidateRow, p.candidates)[row.id] + Tally(IssueRow, p.issues)[row.id] == 1
  {
    RowsAccountedFor(job, units);
    RowsComplete(job, units);
    TablesDistinct(units);
    RowIdsDistinct(job.adapter, TablesOfUnits(units));
    TallyOfDistinct(Acquisition(job, units).value.part.rows, row);
  }

  // ----- exactly when an acquisition returns -----

  /** The parsed price cannot be made a candidate. */
  predicate Unusable(job: Job, parse: PriceParse) {
    match parse
    case ParseRaises => true
    case Unparsed => false
    case Parsed(kind, amount, text) =>
      || ((kind == Exact || kind == StartingFrom) && amount.Some? && Blank(job.projectId))
      || (kind == OnRequest && (Blank(job.projectId) || Blank(text)))
  }

  /** The price of the row is read and does not parse or cannot be used. */
  predicate PriceRaises(job: Job, columns: seq<ColumnRole>, row: AcquiredRow) {
    var priced := PricedItem(columns, row);
    priced.Some? && Unusable(job, job.adapter.parsePrice(priced.value.1))
  }

  predicate TableReadable(job: Job, ut: UnitTable) {
    && AllNamed(ut.table.headers)
    && forall k :: 0 <= k < |ut.table.rows| ==> !PriceRaises(job, ColumnsOf(job, ut), RowAt(job.adapter, ut, k))
  }

  lemma {:induction false} PriceFactReturns(job: Job, rowId: string, item: string, unit: string, ref: SourceRef,
                                            fields: seq<Field>, parse: PriceParse)
    requires !Blank(job.documentId)
    ensures FactFromPrice(job, rowId, item, unit, ref, fields, parse).Raised? <==> Unusable(job, parse)
  {
  }

  lemma {:induction false} FactReturns(job: Job, ut: UnitTable, row: AcquiredRow, columns: seq<ColumnRole>,
                                       fields: seq<Field>)
    requires !Blank(job.documentId)
    ensures FactFromRow(job, ut, row, columns, fields).Raised? <==> PriceRaises(job, columns, row)
  {
    var priced := PricedItem(columns, row);
    if priced.Some? {
      var (item, price) := priced.value;
      PriceFactReturns(job, row.id, item, UnitText(job.adapter, columns, row, price),
                       RowRef(job.documentId, row, RowQuote(ut.table.headers, row)), fields,
                       job.adapter.parsePrice(price));
    }
  }

  lemma {:induction false} RowReturns(job: Job, ut: UnitTable, columns: seq<ColumnRole>, k: nat)
    requires k < |ut.table.rows| && !Blank(job.documentId)
    ensures RowPart(job, ut, columns, k).Returned? <==>
            AllNamed(ut.table.headers) && !PriceRaises(job, columns, RowAt(job.adapter, ut, k))
  {
    var row := RowAt(job.adapter, ut, k);
    FactReturns(job, ut, row, columns, FieldsOf(ut.source.documentId, row, columns));
  }

  lemma {:induction false} TableReturns(job: Job, ut: UnitTable)
    requires ut.table.rows != [] && !Blank(job.documentId)
    ensures TablePart(job, ut).Returned? <==> TableReadable(job, ut)
  {
    var columns := ColumnsOf(job, ut);
    var outcomes := RowOutcomes(job, ut, columns);
    ConcatReturns(outcomes);
    forall k | 0 <= k < |outcomes|
      ensures outcomes[k].Returned? <==>
              AllNamed(ut.table.headers) && !PriceRaises(job, columns, RowAt(job.adapter, ut, k))
    {
      RowReturns(job, ut, columns, k);
    }
    assert TablePart(job, ut).Returned? <==> Concat(outcomes).Returned?;
    if Concat(outcomes).Returned? {
      assert outcomes[0].Returned?;
    }
  }

  predicate AllReadable(job: Job, uts: seq<UnitTable>) {
    forall i :: 0 <= i < |uts| ==> TableReadable(job, uts[i])
  }

  lemma {:induction false} TablesReturn(job: Job, uts: seq<UnitTable>)
    requires !Blank(job.documentId) && forall i :: 0 <= i < |uts| ==> uts[i].table.rows != []
    ensures Concat(TableOutcomes(job, uts)).Returned? <==> AllReadable(job, uts)
  {
    var outcomes := TableOutcomes(job, uts);
    ConcatReturns(outcomes);
    forall i | 0 <= i < |uts| ensures outcomes[i].Returned? <==> TableReadable(job, uts[i]) {
      TableReturns(job, uts[i]);
    }
  }

  /**
    `acquire` returns if and only if the document id is not blank, the units belong to
    it, and no table has an unnamed column or a row whose price text raises.
   */
  lemma {:induction false} AcquisitionReturns(job: Job, units: seq<SourceUnit>)
    ensures Acquisition(job, units).Returned? <==>
            !Blank(job.documentId) && UnitsBelong(units, job.documentId) && AllReadable(job, TablesOfUnits(units))
  {
    var uts := TablesOfUnits(units);
    AcquisitionByTables(job, units);
    forall i | 0 <= i < |uts| ensures uts[i].table.rows != [] {
      TablesHaveRows(units, uts[i]);
    }
    if !Blank(job.documentId) {
      TablesReturn(job, uts);
    }
  }

  lemma {:induction false} AcquisitionByTables(job: Job, units: seq<SourceUnit>)
    ensures Acquisition(job, units).Returned? <==>
            && !Blank(job.documentId) && UnitsBelong(units, job.documentId)
            && Concat(TableOutcomes(job, TablesOfUnits(units))).Returned?
  {
    if TablesOfUnits(units) == [] {
      assert TableOutcomes(job, []) == [];
    }
  }

  // ----- ingestion -----

  /** `review_price_fact_from_acquisition_candidate` */
  function ReviewFact(c: Candidate): PriceFact {
    PriceFact(c.id, c.projectId, c.documentId, c.itemName, c.valueKind, c.unit, NeedsReview,
              c.amount, c.range, c.priceText, c.variant, c.aliases, c.conditions, [c.ref])
  }

  /** `review_price_facts_from_acquisition_result` */
  function ReviewFacts(result: AcquisitionResult): seq<PriceFact> {
    Map(ReviewFact, Filter(NotRejected, result.part.candidates))
  }

  /**
    Ingestion is invisible at run time: interleaving the review facts of any acquisition
    result into any list of facts leaves every lookup unchanged.
   */
  lemma {:induction false} IngestionInvisible(result: AcquisitionResult, facts: seq<PriceFact>, all: seq<PriceFact>,
                           q: LookupQuery, slots: seq<string>)
    requires Interleaves(facts, ReviewFacts(result), all)
    ensures Lookup(q, all, slots) == Lookup(q, facts, slots)
  {
    UnpublishedInvisible(q, facts, ReviewFacts(result), all, slots);
  }

  predicate NotRejected(c: Candidate) {
    c.status != CandidateRejected
  }

  /** The review fact says what the candidate says, and is to be reviewed. */
  predicate Carries(f: PriceFact, c: Candidate) {
    && f.id == c.id && f.projectId == c.projectId && f.documentId == c.documentId
    && f.itemName == c.itemName && f.unit == c.unit && f.valueKind == c.valueKind
    && f.amount == c.amount && f.range == c.range && f.priceText == c.priceText
    && f.variant == c.variant && f.aliases == c.aliases && f.conditions == c.conditions
    && f.sourceRefs == [c.ref] && f.status == NeedsReview
  }

  /** Every candidate that is not rejected gives one review fact, in order, with all it says. */
  lemma IngestionExact(result: AcquisitionResult)
    ensures exists kept: seq<Candidate> ::
              && Selects(NotRejected, result.part.candidates, kept)
              && |ReviewFacts(result)| == |kept|
              && forall i :: 0 <= i < |kept| ==> Carries(ReviewFacts(result)[i], kept[i])
  {
    FilterSelects(NotRejected, result.part.candidates);
  }

  /** What was just acquired is ingested candidate for candidate. */
  lemma AcquiredIngested(job: Job, units: seq<SourceUnit>)
    requires Acquisition(job, units).Returned?
    ensures var r := Acquisition(job, units).value;
      && |ReviewFacts(r)| == |r.part.candidates|
      && forall i :: 0 <= i < |r.part.candidates| ==> Carries(ReviewFacts(r)[i], r.part.candidates[i])
  {
    ResultGrounded(job, units);
    FilterAll(NotRejected, Acquisition(job, units).value.part.candidates);
  }
}
