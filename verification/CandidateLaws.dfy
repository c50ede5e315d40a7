/**
  What an acquisition contains, said about the tables it read: every column role, every
  fact candidate with all its fields, every issue, and nothing else.
 */
module CandidateLaws {
  import opened Text
  import opened Seqs
  import opened Lines
  import opened PipeRows
  import opened MarkdownTables
  import opened PriceKnowledge
  import opened PriceAcquisition
  import opened AcquisitionLaws

  // ----- columns -----

  /** The first column with one of the roles. */
  function FirstWith(adapter: Adapter, headers: Row, roles: set<Role>): (i: Option<nat>)
    ensures i.None? <==> forall j :: 0 <= j < |headers| ==> adapter.roleOf(headers[j]) !in roles
    ensures i.Some? ==> i.value < |headers| && adapter.roleOf(headers[i.value]) in roles
    ensures i.Some? ==> forall j :: 0 <= j < i.value ==> adapter.roleOf(headers[j]) !in roles
  {
    if headers == [] then None
    else if adapter.roleOf(headers[0]) in roles then Some(0)
    else
      var rest := FirstWith(adapter, headers[1..], roles);
      if rest.None? then None else Some(rest.value + 1)
  }

  /** The last column of the same name: the one whose cells a dictionary of the row keeps. */
  function LastNamesake(headers: Row, i: nat): (j: nat)
    requires i < |headers|
    ensures i <= j < |headers| && headers[j] == headers[i]
    ensures forall k :: j < k < |headers| ==> headers[k] != headers[i]
    decreases |headers| - i
  {
    LastFrom(headers, i, |headers| - 1)
  }

  function LastFrom(headers: Row, i: nat, from: nat): (j: nat)
    requires i <= from < |headers| && forall k :: from < k < |headers| ==> headers[k] != headers[i]
    ensures i <= j <= from && headers[j] == headers[i]
    ensures forall k :: j < k < |headers| ==> headers[k] != headers[i]
    decreases from
  {
    if headers[from] == headers[i] then from else LastFrom(headers, i, from - 1)
  }

  /** The column a row is read by for these roles. */
  function ColumnFor(adapter: Adapter, headers: Row, roles: set<Role>): (j: Option<nat>)
    ensures j.Some? ==> j.value < |headers|
  {
    var i := FirstWith(adapter, headers, roles);
    if i.None? then None else Some(LastNamesake(headers, i.value))
  }

  lemma {:induction false} FirstColumnIs(adapter: Adapter, unitId: string, headers: Row, roles: set<Role>)
    requires UnknownRole !in roles
    ensures var i := FirstWith(adapter, headers, roles);
      FirstColumn(ColumnRoles(adapter, unitId, headers), roles) ==
        if i.None? then None else Some(headers[i.value])
  {
    if headers != [] {
      FirstColumnIs(adapter, unitId, headers[1..], roles);
      var columns := ColumnRoles(adapter, unitId, headers);
      assert Recognised(adapter)(headers[0]) ==> columns[1..] == ColumnRoles(adapter, unitId, headers[1..]);
    }
  }

  // ----- cells -----

  lemma {:induction false} LastEntryWins(es: Dict, j: nat)
    requires j < |es| && forall k :: j < k < |es| ==> es[k].0 != es[j].0
    ensures Get(FromEntries(es), es[j].0) == Some(es[j].1)
  {
    var n := |es| - 1;
    GetPut(FromEntries(es[..n]), es[n].0, es[n].1, es[j].0);
    if j < n {
      LastEntryWins(es[..n], j);
    }
  }

  lemma RawCellRead(headers: Row, values: Row, i: nat)
    requires i < |headers| == |values|
    ensures Get(RawCells(headers, values), headers[i]) == Some(values[LastNamesake(headers, i)])
  {
    var es := seq(|headers|, k requires 0 <= k < |headers| => (headers[k], CellAt(values, k)));
    LastEntryWins(es, LastNamesake(headers, i));
  }

  /** A row keeps its place; read under a header it gives that header's cell, or that of its last namesake. */
  lemma CellRead(adapter: Adapter, ut: UnitTable, k: nat, i: nat)
    requires CleanTable(ut.table) && k < |ut.table.rows| && i < |ut.table.headers|
    ensures var row := RowAt(adapter, ut, k);
      row.id == adapter.rowId(ut.source.id, ut.table.startLine, k) && row.unitId == ut.source.id && row.rowIndex == k
    ensures CellText(RowAt(adapter, ut, k), ut.table.headers[i])
         == ut.table.rows[k][LastNamesake(ut.table.headers, i)]
  {
    var headers, values := ut.table.headers, ut.table.rows[k];
    RawCellRead(headers, values, i);
    assert CleanCell(values[LastNamesake(headers, i)]);
    StripTrimmed(values[LastNamesake(headers, i)]);
  }

  // ----- the candidate a row gives, from the table alone -----

  /** The cell a row has for these roles; nothing without such a column. */
  function CellFor(adapter: Adapter, t: Table, k: nat, roles: set<Role>): string
    requires CleanTable(t) && k < |t.rows|
  {
    var j := ColumnFor(adapter, t.headers, roles);
    if j.None? then "" else t.rows[k][j.value]
  }

  function UnitFor(adapter: Adapter, t: Table, k: nat): string
    requires CleanTable(t) && k < |t.rows|
  {
    if ColumnFor(adapter, t.headers, {BillingUnit}).None? then
      adapter.unitFromPrice(CellFor(adapter, t, k, PRICE_ROLES))
    else if CellFor(adapter, t, k, {BillingUnit}) == "" then "item"
    else CellFor(adapter, t, k, {BillingUnit})
  }

  /** The cells of row `k` with their headers, each cell taken from the column that goes for it. */
  function Quoted(headers: Row, values: Row, column: nat -> nat): (parts: seq<string>)
    requires |values| == |headers| && forall j: nat :: j < |headers| ==> column(j) < |headers|
    ensures |parts| == |headers|
    ensures forall j: nat :: j < |headers| ==> parts[j] == headers[j] + ": " + values[column(j)]
  {
    seq(|headers|, j requires 0 <= j < |headers| => headers[j] + ": " + values[column(j)])
  }

  function KeptColumn(headers: Row): nat -> nat {
    (j: nat) => if j < |headers| then LastNamesake(headers, j) else j
  }

  function OwnColumn(j: nat): nat {
    j
  }

  /** A row quoted by the cells a dictionary of it keeps. */
  function KeptQuote(headers: Row, values: Row): string
    requires |values| == |headers|
  {
    JoinQuotes(Quoted(headers, values, KeptColumn(headers)))
  }

  /** A row quoted cell by cell. */
  function OwnQuote(headers: Row, values: Row): string
    requires |values| == |headers|
  {
    JoinQuotes(Quoted(headers, values, OwnColumn))
  }

  /** What a priced row gives: a candidate for a price on request, an exact or a starting amount, else nothing. */
  function Sold(id: string, projectId: string, ref: SourceRef, item: string, unit: string, fields: seq<Field>,
                parse: PriceParse): Option<Candidate>
  {
    match parse
    case Parsed(kind, amount, text) =>
      if kind == OnRequest then
        Some(Candidate(id, projectId, ref.documentId, item, kind, unit, ref, CandidateNeedsReview,
                       None, None, text, [], [], [], fields))
      else if (kind == Exact || kind == StartingFrom) && amount.Some? then
        Some(Candidate(id, projectId, ref.documentId, item, kind, unit, ref, CandidateNeedsReview,
                       amount, None, "", [], [], [], fields))
      else None
    case _ => None
  }

  /** The candidate a row gives, if it names an item and a price that is sold. */
  function Offer(job: Job, rowId: string, unitId: string, item: string, price: string, unit: string, quote: string,
                 fields: seq<Field>): Option<Candidate>
  {
    if item == "" || price == "" then None
    else
      Sold(job.adapter.candidateId(rowId), job.projectId, SourceRef(job.documentId, unitId, Some(rowId), quote),
           item, unit, fields, job.adapter.parsePrice(price))
  }

  /** The candidate of row `k`. */
  function Expected(job: Job, ut: UnitTable, k: nat): Option<Candidate>
    requires CleanTable(ut.table) && k < |ut.table.rows|
  {
    Offer(job, job.adapter.rowId(ut.source.id, ut.table.startLine, k), ut.source.id,
          CellFor(job.adapter, ut.table, k, {ItemName}), CellFor(job.adapter, ut.table, k, PRICE_ROLES),
          UnitFor(job.adapter, ut.table, k),
          KeptQuote(ut.table.headers, ut.table.rows[k]),
          FieldsOf(ut.source.documentId, RowAt(job.adapter, ut, k), ColumnsOf(job, ut)))
  }

  lemma PriceFactIs(job: Job, rowId: string, item: string, unit: string, ref: SourceRef, fields: seq<Field>,
                    parse: PriceParse)
    requires ref.documentId == job.documentId
    ensures var fact := FactFromPrice(job, rowId, item, unit, ref, fields, parse);
      fact.Returned? ==>
        fact.value == Sold(job.adapter.candidateId(rowId), job.projectId, ref, item, unit, fields, parse)
  {
  }

  lemma FactFromParts(job: Job, ut: UnitTable, row: AcquiredRow, columns: seq<ColumnRole>, fields: seq<Field>,
                      item: string, price: string, unit: string, quote: string)
    requires PricedItem(columns, row) == if item == "" || price == "" then None else Some((item, price))
    requires UnitText(job.adapter, columns, row, price) == unit
    requires RowQuote(ut.table.headers, row) == quote
    ensures var fact := FactFromRow(job, ut, row, columns, fields);
      fact.Returned? ==> fact.value == Offer(job, row.id, row.unitId, item, price, unit, quote, fields)
  {
    if item != "" && price != "" {
      PriceFactIs(job, row.id, item, unit, RowRef(job.documentId, row, quote), fields, job.adapter.parsePrice(price));
    }
  }

  lemma PricedItemIs(job: Job, ut: UnitTable, k: nat)
    requires CleanTable(ut.table) && k < |ut.table.rows|
    ensures var item := CellFor(job.adapter, ut.table, k, {ItemName});
      var price := CellFor(job.adapter, ut.table, k, PRICE_ROLES);
      PricedItem(ColumnsOf(job, ut), RowAt(job.adapter, ut, k)) ==
        if item == "" || price == "" then None else Some((item, price))
  {
    var headers := ut.table.headers;
    FirstColumnIs(job.adapter, ut.source.id, headers, {ItemName});
    FirstColumnIs(job.adapter, ut.source.id, headers, PRICE_ROLES);
    var i, p := FirstWith(job.adapter, headers, {ItemName}), FirstWith(job.adapter, headers, PRICE_ROLES);
    if i.Some? {
      CellRead(job.adapter, ut, k, i.value);
    }
    if p.Some? {
      CellRead(job.adapter, ut, k, p.value);
    }
  }

  lemma UnitIs(job: Job, ut: UnitTable, k: nat)
    requires CleanTable(ut.table) && k < |ut.table.rows|
    ensures UnitText(job.adapter, ColumnsOf(job, ut), RowAt(job.adapter, ut, k),
                     CellFor(job.adapter, ut.table, k, PRICE_ROLES)) == UnitFor(job.adapter, ut.table, k)
  {
    FirstColumnIs(job.adapter, ut.source.id, ut.table.headers, {BillingUnit});
    var u := FirstWith(job.adapter, ut.table.headers, {BillingUnit});
    if u.Some? {
      CellRead(job.adapter, ut, k, u.value);
    }
  }

  lemma RowQuoteIs(adapter: Adapter, ut: UnitTable, k: nat)
    requires CleanTable(ut.table) && k < |ut.table.rows|
    ensures RowQuote(ut.table.headers, RowAt(adapter, ut, k))
         == KeptQuote(ut.table.headers, ut.table.rows[k])
  {
    var headers, values := ut.table.headers, ut.table.rows[k];
    var row, parts := RowAt(adapter, ut, k), Quoted(headers, values, KeptColumn(headers));
    forall j: nat | j < |headers| ensures Map(QuotedCell(row), headers)[j] == parts[j] {
      RawCellRead(headers, values, j);
    }
    assert Map(QuotedCell(row), headers) == parts;
  }

  /** The fact made from a row is the expected one. */
  lemma FactIs(job: Job, ut: UnitTable, k: nat)
    requires CleanTable(ut.table) && k < |ut.table.rows|
    ensures var row, columns := RowAt(job.adapter, ut, k), ColumnsOf(job, ut);
      var fact := FactFromRow(job, ut, row, columns, FieldsOf(ut.source.documentId, row, columns));
      fact.Returned? ==> fact.value == Expected(job, ut, k)
  {
    PricedItemIs(job, ut, k);
    UnitIs(job, ut, k);
    RowQuoteIs(job.adapter, ut, k);
    var row, columns := RowAt(job.adapter, ut, k), ColumnsOf(job, ut);
    FactFromParts(job, ut, row, columns, FieldsOf(ut.source.documentId, row, columns),
                  CellFor(job.adapter, ut.table, k, {ItemName}), CellFor(job.adapter, ut.table, k, PRICE_ROLES),
                  UnitFor(job.adapter, ut.table, k), KeptQuote(ut.table.headers, ut.table.rows[k]));
  }

  /** The issue filed for a row without a candidate. */
  function RowIssue(job: Job, ut: UnitTable, k: nat): Issue
    requires CleanTable(ut.table) && k < |ut.table.rows|
  {
    Issue(NeedsHumanReview,
          [SourceRef(job.documentId, ut.source.id, Some(job.adapter.rowId(ut.source.id, ut.table.startLine, k)),
                     OwnQuote(ut.table.headers, ut.table.rows[k]))])
  }

  lemma RowIssueIs(job: Job, ut: UnitTable, k: nat)
    requires CleanTable(ut.table) && k < |ut.table.rows|
    ensures ReviewIssue(job.documentId, ut, RowAt(job.adapter, ut, k), k) == RowIssue(job, ut, k)
  {
    var headers, values := ut.table.headers, ut.table.rows[k];
    assert seq(|headers|, i requires 0 <= i < |headers| => headers[i] + ": " + CellAt(values, i))
        == Quoted(headers, values, OwnColumn);
  }

  lemma RowPartIs(job: Job, ut: UnitTable, k: nat)
    requires CleanTable(ut.table) && k < |ut.table.rows| && RowPart(job, ut, ColumnsOf(job, ut), k).Returned?
    ensures var row := RowAt(job.adapter, ut, k);
      RowPart(job, ut, ColumnsOf(job, ut), k).value ==
        ShareOf(row, FieldsOf(ut.source.documentId, row, ColumnsOf(job, ut)), Expected(job, ut, k),
                RowIssue(job, ut, k))
  {
    FactIs(job, ut, k);
    RowIssueIs(job, ut, k);
  }

  // ----- what a result contains -----

  /** One thing a result can contain. */
  datatype Entry =
    | OfColumn(column: ColumnRole)
    | OfField(field: Field)
    | OfCandidate(candidate: Candidate)
    | OfIssue(issue: Issue)

  predicate Has(p: Part, e: Entry) {
    match e
    case OfColumn(c) => c in p.columns
    case OfField(f) => f in p.fields
    case OfCandidate(c) => c in p.candidates
    case OfIssue(i) => i in p.issues
  }

  predicate OutcomeHas(outcomes: seq<Outcome<Part>>, k: nat, e: Entry) {
    k < |outcomes| && outcomes[k].Returned? && Has(outcomes[k].value, e)
  }

  lemma {:induction false} ConcatHas(outcomes: seq<Outcome<Part>>, e: Entry)
    requires Concat(outcomes).Returned?
    ensures Has(Concat(outcomes).value, e) <==> exists k: nat :: OutcomeHas(outcomes, k, e)
    ensures forall k :: 0 <= k < |outcomes| ==> outcomes[k].Returned?
  {
    if outcomes != [] {
      var n := |outcomes| - 1;
      ConcatHas(outcomes[..n], e);
      forall k: nat | k < n ensures OutcomeHas(outcomes, k, e) <==> OutcomeHas(outcomes[..n], k, e) {
      }
      PlusHas(Concat(outcomes[..n]).value, outcomes[n].value, e);
      if k: nat :| OutcomeHas(outcomes[..n], k, e) {
        assert OutcomeHas(outcomes, k, e);
      }
      assert OutcomeHas(outcomes, n, e) <==> Has(outcomes[n].value, e);
      if k: nat :| OutcomeHas(outcomes, k, e) {
        assert k < n ==> OutcomeHas(outcomes[..n], k, e);
      }
    }
  }

  lemma PlusHas(a: Part, b: Part, e: Entry)
    ensures Has(a.Plus(b), e) <==> Has(a, e) || Has(b, e)
  {
  }

  /** What row `k` of a table contributes. */
  predicate RowHas(job: Job, ut: UnitTable, k: nat, e: Entry)
    requires CleanTable(ut.table)
  {
    && k < |ut.table.rows|
    && ShareHas(FieldsOf(ut.source.documentId, RowAt(job.adapter, ut, k), ColumnsOf(job, ut)),
                Expected(job, ut, k), RowIssue(job, ut, k), e)
  }

  /** The fields of a row, its candidate, or else its issue. */
  predicate ShareHas(fields: seq<Field>, candidate: Option<Candidate>, issue: Issue, e: Entry) {
    match e
    case OfColumn(_) => false
    case OfField(f) => f in fields
    case OfCandidate(c) => candidate == Some(c)
    case OfIssue(i) => candidate.None? && i == issue
  }

  function ShareOf(row: AcquiredRow, fields: seq<Field>, candidate: Option<Candidate>, issue: Issue): Part {
    Part([row], [], fields, if candidate.Some? then [candidate.value] else [], if candidate.Some? then [] else [issue])
  }

  lemma ShareHasIff(row: AcquiredRow, fields: seq<Field>, candidate: Option<Candidate>, issue: Issue, e: Entry)
    ensures Has(ShareOf(row, fields, candidate, issue), e) <==> ShareHas(fields, candidate, issue, e)
  {
  }

  /** What the header of a table contributes: its recognised columns, and an issue for each kind that lacks one. */
  predicate HeaderHas(job: Job, ut: UnitTable, e: Entry) {
    var headers := ut.table.headers;
    var ref := SourceRef(ut.source.documentId, ut.source.id, None, JoinQuotes(headers));
    match e
    case OfColumn(c) => exists j :: 0 <= j < |headers| && job.adapter.roleOf(headers[j]) != UnknownRole &&
                                    c == ColumnRole(ut.source.id, headers[j], job.adapter.roleOf(headers[j]))
    case OfIssue(i) =>
      || (i == Issue(MissingItemName, [ref]) &&
            forall j :: 0 <= j < |headers| ==> job.adapter.roleOf(headers[j]) != ItemName)
      || (i == Issue(MissingPriceValue, [ref]) &&
            forall j :: 0 <= j < |headers| ==> job.adapter.roleOf(headers[j]) !in {Amount, PriceText})
    case _ => false
  }

  lemma ColumnMember(adapter: Adapter, unitId: string, headers: Row, c: ColumnRole)
    ensures c in ColumnRoles(adapter, unitId, headers) <==>
            exists j :: 0 <= j < |headers| && adapter.roleOf(headers[j]) != UnknownRole &&
                        c == ColumnRole(unitId, headers[j], adapter.roleOf(headers[j]))
  {
    var named := Filter(Recognised(adapter), headers);
    forall h ensures h in named <==> h in headers && adapter.roleOf(h) != UnknownRole {
      FilterMember(Recognised(adapter), headers, h);
    }
    var columns := ColumnRoles(adapter, unitId, headers);
    if c in columns {
      var i :| 0 <= i < |columns| && columns[i] == c;
      assert named[i] in named && named[i] in headers;
      var j :| 0 <= j < |headers| && headers[j] == named[i];
    }
    if j :| 0 <= j < |headers| && adapter.roleOf(headers[j]) != UnknownRole &&
            c == ColumnRole(unitId, headers[j], adapter.roleOf(headers[j])) {
      assert headers[j] in named;
      var i :| 0 <= i < |named| && named[i] == headers[j];
      assert columns[i] == c;
    }
  }

  lemma HeaderPartHas(job: Job, ut: UnitTable, e: Entry)
    ensures Has(HeaderPart(ut, ColumnsOf(job, ut)), e) <==> HeaderHas(job, ut, e)
  {
    match e
    case OfColumn(c) => ColumnMember(job.adapter, ut.source.id, ut.table.headers, c);
    case OfIssue(i) => TableIssueMember(job, ut, i);
    case _ =>
  }

  lemma TableIssueMember(job: Job, ut: UnitTable, i: Issue)
    ensures i in TableIssues(ut, ColumnsOf(job, ut)) <==> HeaderHas(job, ut, OfIssue(i))
  {
    FirstColumnIs(job.adapter, ut.source.id, ut.table.headers, {ItemName});
    FirstColumnIs(job.adapter, ut.source.id, ut.table.headers, PRICE_ROLES);
  }

  ghost predicate TableHas(job: Job, ut: UnitTable, e: Entry)
    requires CleanTable(ut.table)
  {
    HeaderHas(job, ut, e) || exists k: nat :: RowHas(job, ut, k, e)
  }

  lemma JoinHas(header: Part, outcomes: seq<Outcome<Part>>, e: Entry)
    requires Join(Returned(header), Concat(outcomes)).Returned?
    ensures Has(Join(Returned(header), Concat(outcomes)).value, e) <==>
            Has(header, e) || exists k: nat :: OutcomeHas(outcomes, k, e)
    ensures forall k :: 0 <= k < |outcomes| ==> outcomes[k].Returned?
  {
    ConcatHas(outcomes, e);
    PlusHas(header, Concat(outcomes).value, e);
  }

  lemma RowsHave(job: Job, ut: UnitTable, outcomes: seq<Outcome<Part>>, e: Entry)
    requires CleanTable(ut.table) && outcomes == RowOutcomes(job, ut, ColumnsOf(job, ut))
    requires forall k :: 0 <= k < |outcomes| ==> outcomes[k].Returned?
    ensures (exists k: nat :: OutcomeHas(outcomes, k, e)) <==> exists k: nat :: RowHas(job, ut, k, e)
  {
    forall k: nat ensures OutcomeHas(outcomes, k, e) <==> RowHas(job, ut, k, e) {
      if k < |outcomes| {
        RowOutcomeHas(job, ut, k, e);
      }
    }
  }

  lemma TablePartHas(job: Job, ut: UnitTable, e: Entry)
    requires CleanTable(ut.table) && TablePart(job, ut).Returned?
    ensures Has(TablePart(job, ut).value, e) <==> TableHas(job, ut, e)
  {
    var outcomes := RowOutcomes(job, ut, ColumnsOf(job, ut));
    JoinHas(HeaderPart(ut, ColumnsOf(job, ut)), outcomes, e);
    HeaderPartHas(job, ut, e);
    RowsHave(job, ut, outcomes, e);
  }

  lemma RowOutcomeHas(job: Job, ut: UnitTable, k: nat, e: Entry)
    requires CleanTable(ut.table) && k < |ut.table.rows| && RowPart(job, ut, ColumnsOf(job, ut), k).Returned?
    ensures OutcomeHas(RowOutcomes(job, ut, ColumnsOf(job, ut)), k, e) <==> RowHas(job, ut, k, e)
  {
    RowPartIs(job, ut, k);
    var row := RowAt(job.adapter, ut, k);
    ShareHasIff(row, FieldsOf(ut.source.documentId, row, ColumnsOf(job, ut)), Expected(job, ut, k),
                RowIssue(job, ut, k), e);
  }

  lemma {:induction false} TableClean(units: seq<SourceUnit>, ut: UnitTable)
    requires ut in TablesOfUnits(units)
    ensures CleanTable(ut.table)
  {
    var init, last := units[..|units| - 1], units[|units| - 1];
    if ut in TablesOfUnits(init) {
      TableClean(init, ut);
    } else {
      assert ut in TablesOfUnit(last);
      var i :| 0 <= i < |TablesOfUnit(last)| && TablesOfUnit(last)[i] == ut;
      ScannedTableClean(SplitLines(last.text), ut.table);
    }
  }

  lemma TablesClean(units: seq<SourceUnit>)
    ensures forall n :: 0 <= n < |TablesOfUnits(units)| ==> CleanTable(TablesOfUnits(units)[n].table)
  {
    forall n | 0 <= n < |TablesOfUnits(units)| ensures CleanTable(TablesOfUnits(units)[n].table) {
      TableClean(units, TablesOfUnits(units)[n]);
    }
  }

  ghost predicate TableOfUnitsHas(job: Job, units: seq<SourceUnit>, n: nat, e: Entry) {
    && n < |TablesOfUnits(units)| && CleanTable(TablesOfUnits(units)[n].table)
    && TableHas(job, TablesOfUnits(units)[n], e)
  }

  /**
    Whenever `acquire` returns, its result contains exactly what the tables of its units
    give: the recognised columns and missing-column issues of each header, and the fields
    and the expected candidate, or else the issue, of each row.  Without a table there is
    one issue, naming nothing.
   */
  lemma ResultExact(job: Job, units: seq<SourceUnit>, e: Entry)
    requires Acquisition(job, units).Returned?
    ensures Has(Acquisition(job, units).value.part, e) <==>
            if TablesOfUnits(units) == [] then e == OfIssue(Issue(NeedsHumanReview, []))
            else exists n: nat :: TableOfUnitsHas(job, units, n, e)
  {
    var uts := TablesOfUnits(units);
    if uts != [] {
      var outcomes := TableOutcomes(job, uts);
      ConcatHas(outcomes, e);
      forall n: nat ensures OutcomeHas(outcomes, n, e) <==> TableOfUnitsHas(job, units, n, e) {
        if n < |uts| {
          TableOutcomeHas(job, units, n, e);
        }
      }
    }
  }

  lemma TableOutcomeHas(job: Job, units: seq<SourceUnit>, n: nat, e: Entry)
    requires n < |TablesOfUnits(units)| && TableOutcomes(job, TablesOfUnits(units))[n].Returned?
    ensures OutcomeHas(TableOutcomes(job, TablesOfUnits(units)), n, e) <==> TableOfUnitsHas(job, units, n, e)
  {
    TablesClean(units);
    TablePartHas(job, TablesOfUnits(units)[n], e);
  }

  /** Every row of every table gives its expected candidate, or else its issue, and the result holds it. */
  lemma RowAnswered(job: Job, units: seq<SourceUnit>, n: nat, k: nat)
    requires Acquisition(job, units).Returned?
    requires n < |TablesOfUnits(units)| && k < |TablesOfUnits(units)[n].table.rows|
    ensures var ut := TablesOfUnits(units)[n];
      && CleanTable(ut.table)
      && if Expected(job, ut, k).Some? then Expected(job, ut, k).value in Acquisition(job, units).value.part.candidates
         else RowIssue(job, ut, k) in Acquisition(job, units).value.part.issues
  {
    TablesClean(units);
    var ut := TablesOfUnits(units)[n];
    var expected := Expected(job, ut, k);
    var e := if expected.Some? then OfCandidate(expected.value) else OfIssue(RowIssue(job, ut, k));
    ResultExact(job, units, e);
    assert RowHas(job, ut, k, e);
    assert TableOfUnitsHas(job, units, n, e);
  }

  // ----- from printed text -----

  lemma PrintedTables(u: SourceUnit, preamble: seq<string>, blocks: seq<Block>)
    requires Prints(u.text, preamble, blocks)
    ensures TablesOfUnits([u]) == Map(InUnit(u), Placed(blocks, |preamble|))
  {
    TextInvertsPrint(u.text, preamble, blocks);
    assert TablesOfUnits([u][..0]) == [];
    assert TablesOfUnits([u]) == TablesOfUnit(u);
  }

  lemma {:induction false} PlacedTable(blocks: seq<Block>, from: nat, n: nat)
    requires n < |blocks|
    ensures |Placed(blocks, from)| == |blocks|
    ensures Placed(blocks, from)[n] == blocks[n].TableFrom(Placed(blocks, from)[n].startLine)
  {
    if n > 0 {
      PlacedTable(blocks[1..], from + blocks[0].Size() + |blocks[0].gap|, n - 1);
    } else if |blocks| > 1 {
      PlacedTable(blocks[1..], from + blocks[0].Size() + |blocks[0].gap|, 0);
    }
  }

  /**
    End to end: acquiring a unit that holds a printed document yields, row for row, the
    rows of the printed tables at the lines where they were printed.
   */
  lemma PrintedRowsAcquired(job: Job, u: SourceUnit, preamble: seq<string>, blocks: seq<Block>)
    requires Prints(u.text, preamble, blocks)
    requires Acquisition(job, [u]).Returned?
    ensures Acquisition(job, [u]).value.part.rows
         == RowsOfTables(job.adapter, Map(InUnit(u), Placed(blocks, |preamble|)))
  {
    RowsComplete(job, [u]);
    PrintedTables(u, preamble, blocks);
  }

  /**
    End to end to the candidates: for every printed row the result holds the candidate
    expected of the printed cells, or else the row's issue.
   */
  lemma PrintedFactAcquired(job: Job, u: SourceUnit, preamble: seq<string>, blocks: seq<Block>, n: nat, k: nat)
    requires Prints(u.text, preamble, blocks) && Acquisition(job, [u]).Returned?
    requires n < |blocks| && k < |blocks[n].rows|
    ensures |Placed(blocks, |preamble|)| == |blocks|
    ensures var t, p := Placed(blocks, |preamble|)[n], Acquisition(job, [u]).value.part;
      && t.headers == blocks[n].headers && |t.rows| == |blocks[n].rows| && CleanTable(t)
      && t.rows[k] == FitRow(blocks[n].rows[k], |t.headers|)
      && var expected := Expected(job, UnitTable(u, t), k);
         if expected.Some? then expected.value in p.candidates else RowIssue(job, UnitTable(u, t), k) in p.issues
  {
    PlacedTable(blocks, |preamble|, n);
    PrintedTables(u, preamble, blocks);
    RowAnswered(job, [u], n, k);
  }
}
