/**
  Turning the Markdown tables of a price document into acquisition rows, price fact
  candidates and review issues.  Constructors that reject their arguments raise, and so
  does the price parser on some texts: both end the acquisition.
 */
module PriceAcquisition {
  import opened Text
  import opened Seqs
  import opened Lines
  import opened PipeRows
  import opened MarkdownTables
  import opened PriceKnowledge

  /** Text that the constructors accept as a name. */
  type Named = s: string | !Blank(s) witness "n"

  datatype Outcome<+T> = Returned(value: T) | Raised

  datatype Role = ItemName | Amount | PriceText | BillingUnit | Description | Variant | UnknownRole

  datatype SourceUnit = SourceUnit(id: string, documentId: string, text: string)
  datatype UnitTable = UnitTable(source: SourceUnit, table: Table)

  datatype AcquiredRow = AcquiredRow(id: string, unitId: string, rowIndex: nat, rawCells: Dict)
  datatype ColumnRole = ColumnRole(unitId: string, column: string, role: Role)
  datatype Field = Field(role: Role, value: string, ref: SourceRef)

  datatype CandidateStatus = CandidateNeedsReview | CandidateRejected

  datatype Candidate = Candidate(
    id: string,
    projectId: string,
    documentId: string,
    itemName: string,
    valueKind: PriceValueKind,
    unit: string,
    ref: SourceRef,
    status: CandidateStatus,
    amount: Option<Money>,
    range: Option<PriceRange>,
    priceText: string,
    variant: Dict,
    aliases: seq<string>,
    conditions: seq<string>,
    fields: seq<Field>)

  datatype IssueCode = MissingItemName | MissingPriceValue | NeedsHumanReview
  datatype Issue = Issue(code: IssueCode, refs: seq<SourceRef>)

  /** What the price parser makes of a text. */
  datatype PriceParse = ParseRaises | Unparsed | Parsed(kind: PriceValueKind, amount: Option<Money>, text: string)

  /**
    The parts of the adapter that depend on regular expressions, hashing or marker lists.
    Hashes are never blank, and neither is the unit read from a price text.
   */
  datatype Adapter = Adapter(
    roleOf: string -> Role,
    parsePrice: string -> PriceParse,
    unitFromPrice: string -> Named,
    rowId: (string, nat, nat) -> Named,
    candidateId: string -> Named)

  /** One call of `acquire`. */
  datatype Job = Job(adapter: Adapter, projectId: string, documentId: string)

  /** A share of an acquisition result; shares are concatenated in document order. */
  datatype Part = Part(
    rows: seq<AcquiredRow>,
    columns: seq<ColumnRole>,
    fields: seq<Field>,
    candidates: seq<Candidate>,
    issues: seq<Issue>)
  {
    function Plus(p: Part): Part {
      Part(rows + p.rows, columns + p.columns, fields + p.fields, candidates + p.candidates, issues + p.issues)
    }
  }

  const NOTHING := Part([], [], [], [], [])

  datatype AcquisitionResult = AcquisitionResult(documentId: string, units: seq<SourceUnit>, part: Part)

  // ----- columns -----

  predicate AllNamed(headers: Row) {
    forall i :: 0 <= i < |headers| ==> !Blank(headers[i])
  }

  function Recognised(adapter: Adapter): string -> bool {
    (header: string) => adapter.roleOf(header) != UnknownRole
  }

  function RoleOfColumn(adapter: Adapter, unitId: string): string -> ColumnRole {
    (header: string) => ColumnRole(unitId, header, adapter.roleOf(header))
  }

  /** The roles of the recognised columns, in order. */
  function ColumnRoles(adapter: Adapter, unitId: string, headers: Row): seq<ColumnRole> {
    Map(RoleOfColumn(adapter, unitId), Filter(Recognised(adapter), headers))
  }

  /** A recognised column without a name among the first `n`. */
  predicate Nameless(adapter: Adapter, headers: Row, n: nat)
    requires n <= |headers|
  {
    exists i :: 0 <= i < n && Recognised(adapter)(headers[i]) && Blank(headers[i])
  }

  lemma NamelessStays(adapter: Adapter, headers: Row, i: nat)
    requires i < |headers| && adapter.roleOf(headers[i]) != UnknownRole && Blank(headers[i])
    ensures Nameless(adapter, headers, |headers|)
  {
    assert Recognised(adapter)(headers[i]);
  }

  lemma ColumnRolesStep(adapter: Adapter, unitId: string, headers: Row, i: nat)
    requires i < |headers|
    ensures var header := headers[i];
      ColumnRoles(adapter, unitId, headers[..i + 1]) == ColumnRoles(adapter, unitId, headers[..i]) +
        if adapter.roleOf(header) == UnknownRole then []
        else [ColumnRole(unitId, header, adapter.roleOf(header))]
    ensures Nameless(adapter, headers, i + 1) <==>
            Nameless(adapter, headers, i) || (adapter.roleOf(headers[i]) != UnknownRole && Blank(headers[i]))
  {
    MapFilterSnoc(RoleOfColumn(adapter, unitId), Recognised(adapter), headers[..i], headers[i]);
    assert headers[..i + 1] == headers[..i] + [headers[i]];
  }

  /** `_column_roles`; a role for a blank column name cannot be constructed. */
  method ReadColumnRoles(adapter: Adapter, unitId: string, headers: Row) returns (r: Outcome<seq<ColumnRole>>)
    ensures r == if Nameless(adapter, headers, |headers|) then Raised
                 else Returned(ColumnRoles(adapter, unitId, headers))
  {
    var roles: seq<ColumnRole> := [];
    for i := 0 to |headers|
      invariant roles == ColumnRoles(adapter, unitId, headers[..i])
      invariant !Nameless(adapter, headers, i)
    {
      ColumnRolesStep(adapter, unitId, headers, i);
      var role := adapter.roleOf(headers[i]);
      if role != UnknownRole {
        if Blank(headers[i]) {
          NamelessStays(adapter, headers, i);
          return Raised;
        }
        roles := roles + [ColumnRole(unitId, headers[i], role)];
      }
    }
    assert headers[..|headers|] == headers;
    r := Returned(roles);
  }

  function FirstColumn(columns: seq<ColumnRole>, roles: set<Role>): Option<string> {
    if columns == [] then None
    else if columns[0].role in roles then Some(columns[0].column)
    else FirstColumn(columns[1..], roles)
  }

  const PRICE_ROLES: set<Role> := {Amount, PriceText}

  function TableIssues(ut: UnitTable, columns: seq<ColumnRole>): seq<Issue> {
    var ref := SourceRef(ut.source.documentId, ut.source.id, None, JoinQuotes(ut.table.headers));
    (if FirstColumn(columns, {ItemName}).None? then [Issue(MissingItemName, [ref])] else []) +
    (if FirstColumn(columns, PRICE_ROLES).None? then [Issue(MissingPriceValue, [ref])] else [])
  }

  function JoinQuotes(parts: seq<string>): string {
    if parts == [] then "" else if |parts| == 1 then parts[0] else parts[0] + " | " + JoinQuotes(parts[1..])
  }

  /** Wherever the parts are divided, a bar stands between the two joined halves. */
  lemma {:induction false} QuotesConcat(a: seq<string>, b: seq<string>)
    requires a != [] && b != []
    ensures JoinQuotes(a + b) == JoinQuotes(a) + " | " + JoinQuotes(b)
    ensures |a| == 1 ==> JoinQuotes(a) == a[0]
  {
    if |a| == 1 {
      assert (a + b)[1..] == b;
    } else {
      QuotesConcat(a[1..], b);
      assert (a + b)[1..] == a[1..] + b;
      assert JoinQuotes(a + b) == a[0] + " | " + JoinQuotes(a[1..] + b);
    }
  }

  // ----- rows -----

  function CellAt(values: Row, i: nat): string {
    if i < |values| then values[i] else ""
  }

  /** `{header: value}`; the last of two equal headers wins. */
  function RawCells(headers: Row, values: Row): Dict {
    FromEntries(seq(|headers|, i requires 0 <= i < |headers| => (headers[i], CellAt(values, i))))
  }

  function CellText(row: AcquiredRow, column: string): string {
    var cell := Get(row.rawCells, column);
    if cell.Some? then Strip(cell.value) else ""
  }

  function RowAt(adapter: Adapter, ut: UnitTable, k: nat): AcquiredRow
    requires k < |ut.table.rows|
  {
    AcquiredRow(adapter.rowId(ut.source.id, ut.table.startLine, k), ut.source.id, k,
                RawCells(ut.table.headers, ut.table.rows[k]))
  }

  function RowRef(documentId: string, row: AcquiredRow, quote: string): SourceRef {
    SourceRef(documentId, row.unitId, Some(row.id), quote)
  }

  function FilledIn(row: AcquiredRow): ColumnRole -> bool {
    (c: ColumnRole) => CellText(row, c.column) != ""
  }

  function FieldOfColumn(documentId: string, row: AcquiredRow): ColumnRole -> Field {
    (c: ColumnRole) =>
      var value := CellText(row, c.column);
      Field(c.role, value, RowRef(documentId, row, c.column + ": " + value))
  }

  predicate Lists(fields: seq<Field>, role: Role, value: string) {
    exists f :: f in fields && f.role == role && f.value == value
  }

  /** A column of that role has that text in the row. */
  predicate Reads(row: AcquiredRow, columns: seq<ColumnRole>, role: Role, value: string) {
    value != "" && exists c :: c in columns && c.role == role && CellText(row, c.column) == value
  }

  /** One field per column the row fills in, in column order. */
  function FieldsOf(documentId: string, row: AcquiredRow, columns: seq<ColumnRole>): seq<Field> {
    Map(FieldOfColumn(documentId, row), Filter(FilledIn(row), columns))
  }

  /**
    `_field_candidates_from_row`: a role is listed with a value exactly when a column of
    that role has that text in the row, and every field names the row.
   */
  method ReadFields(documentId: string, row: AcquiredRow, columns: seq<ColumnRole>) returns (fields: seq<Field>)
    ensures fields == FieldsOf(documentId, row, columns)
    ensures forall role, value :: Lists(fields, role, value) <==> Reads(row, columns, role, value)
    ensures forall f :: f in fields ==> f.ref == RowRef(documentId, row, f.ref.quote)
  {
    fields := [];
    for i := 0 to |columns|
      invariant fields == FieldsOf(documentId, row, columns[..i])
    {
      FieldsStep(documentId, row, columns, i);
      var value := CellText(row, columns[i].column);
      if value != "" {
        fields := fields + [Field(columns[i].role, value, RowRef(documentId, row, columns[i].column + ": " + value))];
      }
    }
    assert columns[..|columns|] == columns;
    FieldsExact(documentId, row, columns);
  }

  lemma FieldsStep(documentId: string, row: AcquiredRow, columns: seq<ColumnRole>, i: nat)
    requires i < |columns|
    ensures var value := CellText(row, columns[i].column);
      FieldsOf(documentId, row, columns[..i + 1]) == FieldsOf(documentId, row, columns[..i]) +
        if value == "" then []
        else [Field(columns[i].role, value, RowRef(documentId, row, columns[i].column + ": " + value))]
  {
    MapFilterSnoc(FieldOfColumn(documentId, row), FilledIn(row), columns[..i], columns[i]);
    assert columns[..i + 1] == columns[..i] + [columns[i]];
  }

  /** The column a field was read from. */
  lemma {:induction false} FieldOrigin(documentId: string, row: AcquiredRow, columns: seq<ColumnRole>, f: Field)
    ensures f in FieldsOf(documentId, row, columns) <==>
            exists c :: c in columns && CellText(row, c.column) != "" && f == FieldOfColumn(documentId, row)(c)
  {
    var filled := Filter(FilledIn(row), columns);
    forall c ensures c in filled <==> c in columns && CellText(row, c.column) != "" {
      FilterMember(FilledIn(row), columns, c);
    }
    var fields := FieldsOf(documentId, row, columns);
    if f in fields {
      var i :| 0 <= i < |fields| && fields[i] == f;
      assert filled[i] in columns;
    }
    if c :| c in columns && CellText(row, c.column) != "" && f == FieldOfColumn(documentId, row)(c) {
      var i :| 0 <= i < |filled| && filled[i] == c;
      assert fields[i] == f;
    }
  }

  lemma FieldsExact(documentId: string, row: AcquiredRow, columns: seq<ColumnRole>)
    ensures var fields := FieldsOf(documentId, row, columns);
      && (forall role, value :: Lists(fields, role, value) <==> Reads(row, columns, role, value))
      && forall f :: f in fields ==> f.ref == RowRef(documentId, row, f.ref.quote)
  {
    var fields := FieldsOf(documentId, row, columns);
    forall f | f in fields ensures f.ref == RowRef(documentId, row, f.ref.quote) {
      FieldOrigin(documentId, row, columns, f);
    }
    forall role, value ensures Lists(fields, role, value) <==> Reads(row, columns, role, value) {
      FieldListed(documentId, row, columns, role, value);
    }
  }

  lemma FieldListed(documentId: string, row: AcquiredRow, columns: seq<ColumnRole>, role: Role, value: string)
    ensures Lists(FieldsOf(documentId, row, columns), role, value) <==> Reads(row, columns, role, value)
  {
    var fields := FieldsOf(documentId, row, columns);
    if Lists(fields, role, value) {
      var f :| f in fields && f.role == role && f.value == value;
      FieldOrigin(documentId, row, columns, f);
    }
    if Reads(row, columns, role, value) {
      var c :| c in columns && c.role == role && CellText(row, c.column) == value;
      FieldOrigin(documentId, row, columns, FieldOfColumn(documentId, row)(c));
    }
  }

  function RowQuote(headers: Row, row: AcquiredRow): string {
    JoinQuotes(Map(QuotedCell(row), headers))
  }

  function QuotedCell(row: AcquiredRow): string -> string {
    (h: string) => h + ": " + (var c := Get(row.rawCells, h); if c.Some? then c.value else "")
  }

  /** `None`: the row names no price; the caller files a review issue. */
  type FactOutcome = Outcome<Option<Candidate>>

  /** The item name and price text of a row, if the table has both columns and the row fills both. */
  function PricedItem(columns: seq<ColumnRole>, row: AcquiredRow): Option<(string, string)> {
    var itemColumn, priceColumn := FirstColumn(columns, {ItemName}), FirstColumn(columns, PRICE_ROLES);
    if itemColumn.None? || priceColumn.None? then None
    else
      var item, price := CellText(row, itemColumn.value), CellText(row, priceColumn.value);
      if item == "" || price == "" then None else Some((item, price))
  }

  lemma CellTextNamed(row: AcquiredRow, column: string)
    ensures CellText(row, column) != "" ==> !Blank(CellText(row, column))
  {
    StripTrimmed(CellText(row, column));
  }

  function UnitText(adapter: Adapter, columns: seq<ColumnRole>, row: AcquiredRow, price: string): (unit: string)
    ensures !Blank(unit)
  {
    var unitColumn := FirstColumn(columns, {BillingUnit});
    if unitColumn.None? then adapter.unitFromPrice(price)
    else
      CellTextNamed(row, unitColumn.value);
      StripTrimmed("item");
      var named := CellText(row, unitColumn.value);
      if named == "" then "item" else named
  }

  /** `_fact_candidate_from_row` */
  function FactFromRow(job: Job, ut: UnitTable, row: AcquiredRow, columns: seq<ColumnRole>, fields: seq<Field>)
    : FactOutcome
  {
    match PricedItem(columns, row)
    case None => Returned(None)
    case Some((item, price)) =>
      var ref := RowRef(job.documentId, row, RowQuote(ut.table.headers, row));
      var unit := UnitText(job.adapter, columns, row, price);
      FactFromPrice(job, row.id, item, unit, ref, fields, job.adapter.parsePrice(price))
  }

  function FactFromPrice(job: Job, rowId: string, item: string, unit: string, ref: SourceRef, fields: seq<Field>,
                         parse: PriceParse): FactOutcome
  {
    var id := job.adapter.candidateId(rowId);
    match parse
    case ParseRaises => Raised
    case Unparsed => Returned(None)
    case Parsed(kind, amount, text) =>
      if Blank(job.documentId) then Raised
      else if kind == Exact || kind == StartingFrom then
        if amount.None? then Returned(None)
        else if Blank(job.projectId) then Raised
        else Returned(Some(Candidate(id, job.projectId, job.documentId, item, kind, unit, ref,
                                     CandidateNeedsReview, amount, None, "", [], [], [], fields)))
      else if kind == OnRequest then
        if Blank(job.projectId) || Blank(text) then Raised
        else Returned(Some(Candidate(id, job.projectId, job.documentId, item, kind, unit, ref,
                                     CandidateNeedsReview, None, None, text, [], [], [], fields)))
      else Returned(None)
  }

  function ValueQuote(headers: Row, values: Row): string {
    JoinQuotes(seq(|headers|, i requires 0 <= i < |headers| => headers[i] + ": " + CellAt(values, i)))
  }

  function ReviewIssue(documentId: string, ut: UnitTable, row: AcquiredRow, k: nat): Issue
    requires k < |ut.table.rows|
  {
    Issue(NeedsHumanReview, [RowRef(documentId, row, ValueQuote(ut.table.headers, ut.table.rows[k]))])
  }

  /** The share of a row: the row, its fields, and its fact or an issue in place of one. */
  function Share(documentId: string, row: AcquiredRow, fields: seq<Field>, fact: FactOutcome, issue: Issue)
    : Outcome<Part>
  {
    if fact.Raised? then Raised
    else if fact.value.Some? then Returned(Part([row], [], fields, [fact.value.value], []))
    else if Blank(documentId) then Raised
    else Returned(Part([row], [], fields, [], [issue]))
  }

  /** Everything one data row contributes. */
  function RowPart(job: Job, ut: UnitTable, columns: seq<ColumnRole>, k: nat): Outcome<Part>
    requires k < |ut.table.rows|
  {
    var row := RowAt(job.adapter, ut, k);
    var fields := FieldsOf(ut.source.documentId, row, columns);
    if !AllNamed(ut.table.headers) then Raised
    else Share(job.documentId, row, fields, FactFromRow(job, ut, row, columns, fields),
               ReviewIssue(job.documentId, ut, row, k))
  }

  function Join(a: Outcome<Part>, b: Outcome<Part>): Outcome<Part> {
    if a.Raised? || b.Raised? then Raised else Returned(a.value.Plus(b.value))
  }

  function Concat(outcomes: seq<Outcome<Part>>): Outcome<Part> {
    if outcomes == [] then Returned(NOTHING)
    else Join(Concat(outcomes[..|outcomes| - 1]), outcomes[|outcomes| - 1])
  }

  function RowOutcomes(job: Job, ut: UnitTable, columns: seq<ColumnRole>): (r: seq<Outcome<Part>>)
    ensures |r| == |ut.table.rows|
    ensures forall k :: 0 <= k < |r| ==> r[k] == RowPart(job, ut, columns, k)
  {
    seq(|ut.table.rows|, k requires 0 <= k < |ut.table.rows| => RowPart(job, ut, columns, k))
  }

  function HeaderPart(ut: UnitTable, columns: seq<ColumnRole>): Part {
    Part([], columns, [], [], TableIssues(ut, columns))
  }

  function TablePart(job: Job, ut: UnitTable): Outcome<Part> {
    var columns := ColumnRoles(job.adapter, ut.source.id, ut.table.headers);
    Join(Returned(HeaderPart(ut, columns)), Concat(RowOutcomes(job, ut, columns)))
  }

  function PartOfTable(job: Job): UnitTable -> Outcome<Part> {
    (ut: UnitTable) => TablePart(job, ut)
  }

  function TableOutcomes(job: Job, uts: seq<UnitTable>): seq<Outcome<Part>> {
    Map(PartOfTable(job), uts)
  }

  // ----- acquire -----

  function TablesOfUnit(u: SourceUnit): seq<UnitTable> {
    Map(InUnit(u), TablesOfText(u.text))
  }

  function InUnit(u: SourceUnit): Table -> UnitTable {
    (t: Table) => UnitTable(u, t)
  }

  function TablesOfUnits(units: seq<SourceUnit>): seq<UnitTable> {
    if units == [] then []
    else TablesOfUnits(units[..|units| - 1]) + TablesOfUnit(units[|units| - 1])
  }

  predicate UnitsBelong(units: seq<SourceUnit>, documentId: string) {
    forall u :: u in units ==> u.documentId == documentId
  }

  function Finish(documentId: string, units: seq<SourceUnit>, part: Outcome<Part>): Outcome<AcquisitionResult> {
    if part.Raised? || Blank(documentId) || !UnitsBelong(units, documentId) then Raised
    else Returned(AcquisitionResult(documentId, units, part.value))
  }

  function Acquisition(job: Job, units: seq<SourceUnit>): Outcome<AcquisitionResult> {
    var uts := TablesOfUnits(units);
    if uts == [] then Finish(job.documentId, units, Returned(NOTHING.(issues := [Issue(NeedsHumanReview, [])])))
    else Finish(job.documentId, units, Concat(TableOutcomes(job, uts)))
  }

  lemma {:induction false} TablesHaveRows(units: seq<SourceUnit>, ut: UnitTable)
    requires ut in TablesOfUnits(units)
    ensures ut.table.rows != [] && ut.source in units
  {
    var init, last := units[..|units| - 1], units[|units| - 1];
    if ut in TablesOfUnits(init) {
      TablesHaveRows(init, ut);
    } else {
      assert ut in TablesOfUnit(last);
      var i :| 0 <= i < |TablesOfUnit(last)| && TablesOfUnit(last)[i] == ut;
      ScannedTableClean(SplitLines(last.text), ut.table);
    }
  }

  lemma {:induction false} RaisedStays(outcomes: seq<Outcome<Part>>, k: nat)
    requires k < |outcomes| && outcomes[k].Raised?
    ensures Concat(outcomes).Raised?
  {
    if k < |outcomes| - 1 {
      RaisedStays(outcomes[..|outcomes| - 1], k);
    }
  }

  lemma {:induction false} PlusNothing(a: Part)
    ensures a.Plus(NOTHING) == a == NOTHING.Plus(a)
  {
  }

  lemma {:induction false} PlusAssociative(a: Part, b: Part, c: Part)
    ensures a.Plus(b).Plus(c) == a.Plus(b.Plus(c))
  {
  }

  ghost predicate JoinedUpTo(start: Part, outcomes: seq<Outcome<Part>>, k: nat, part: Part)
    requires k <= |outcomes|
  {
    Join(Returned(start), Concat(outcomes[..k])) == Returned(part)
  }

  /** One more share joined at the end. */
  lemma ConcatStep(start: Part, outcomes: seq<Outcome<Part>>, k: nat, part: Part)
    requires k < |outcomes| && outcomes[k].Returned?
    requires JoinedUpTo(start, outcomes, k, part)
    ensures JoinedUpTo(start, outcomes, k + 1, part.Plus(outcomes[k].value))
  {
    assert outcomes[..k + 1][..k] == outcomes[..k];
    PlusAssociative(start, Concat(outcomes[..k]).value, outcomes[k].value);
  }

  method CollectTables(units: seq<SourceUnit>) returns (uts: seq<UnitTable>)
    ensures uts == TablesOfUnits(units)
  {
    uts := [];
    for i := 0 to |units|
      invariant uts == TablesOfUnits(units[..i])
    {
      assert units[..i + 1][..i] == units[..i];
      var tables := TablesFromLines(ReadLines(SplitLines(units[i].text)));
      uts := uts + Map(InUnit(units[i]), tables);
    }
    assert units[..|units|] == units;
  }

  /** One row of the `acquire` loop: the lists so far, extended by the row. */
  method AcquireRow(job: Job, ut: UnitTable, columns: seq<ColumnRole>, k: nat, before: Part) returns (r: Outcome<Part>)
    requires k < |ut.table.rows| && AllNamed(ut.table.headers)
    ensures r == Join(Returned(before), RowPart(job, ut, columns, k))
  {
    var row := RowAt(job.adapter, ut, k);
    var fields := ReadFields(ut.source.documentId, row, columns);
    var fact := FactFromRow(job, ut, row, columns, fields);
    r := AppendRow(job.documentId, row, fields, fact, ReviewIssue(job.documentId, ut, row, k), before);
  }

  method AppendRow(documentId: string, row: AcquiredRow, rowFields: seq<Field>, fact: FactOutcome, issue: Issue,
                   before: Part)
    returns (r: Outcome<Part>)
    ensures r == Join(Returned(before), Share(documentId, row, rowFields, fact, issue))
  {
    var rows, fields := before.rows + [row], before.fields + rowFields;
    var candidates, issues := before.candidates, before.issues;
    if fact.Raised? {
      return Raised;
    }
    if fact.value.None? {
      if Blank(documentId) {
        return Raised;
      }
      issues := issues + [issue];
    } else {
      candidates := candidates + [fact.value.value];
    }
    r := Returned(Part(rows, before.columns, fields, candidates, issues));
    assert r.value == before.Plus(Share(documentId, row, rowFields, fact, issue).value);
  }

  /** One table of the `acquire` loop: the part so far, extended by the table. */
  method AcquireTable(job: Job, ut: UnitTable, before: Part) returns (r: Outcome<Part>)
    requires ut.table.rows != []
    ensures r == Join(Returned(before), TablePart(job, ut))
  {
    ghost var outcomes := RowOutcomes(job, ut, ColumnRoles(job.adapter, ut.source.id, ut.table.headers));
    var roles := ReadColumnRoles(job.adapter, ut.source.id, ut.table.headers);
    if roles.Raised? || !AllNamed(ut.table.headers) {
      // a column role or a cell of the first row cannot be constructed
      RaisedStays(outcomes, 0);
      return Raised;
    }
    var columns := roles.value;
    var part := before.Plus(HeaderPart(ut, columns));
    ghost var start := part;
    PlusNothing(start);
    for k := 0 to |ut.table.rows|
      invariant JoinedUpTo(start, outcomes, k, part)
    {
      var next := AcquireRow(job, ut, columns, k, part);
      OutcomeStep(start, outcomes, k, part, next);
      if next.Raised? {
        return Raised;
      }
      part := next.value;
    }
    assert outcomes[..|outcomes|] == outcomes;
    PlusAssociative(before, HeaderPart(ut, columns), Concat(outcomes).value);
    r := Returned(part);
  }

  lemma OutcomeStep(start: Part, outcomes: seq<Outcome<Part>>, k: nat, part: Part, next: Outcome<Part>)
    requires k < |outcomes| && JoinedUpTo(start, outcomes, k, part) && next == Join(Returned(part), outcomes[k])
    ensures next.Raised? ==> Concat(outcomes).Raised?
    ensures next.Returned? ==> JoinedUpTo(start, outcomes, k + 1, next.value)
  {
    if next.Raised? {
      RaisedStays(outcomes, k);
    } else {
      ConcatStep(start, outcomes, k, part);
    }
  }

  /** The loop of `acquire` over the tables. */
  method AcquireTables(job: Job, uts: seq<UnitTable>) returns (r: Outcome<Part>)
    requires forall i :: 0 <= i < |uts| ==> uts[i].table.rows != []
    ensures r == Concat(TableOutcomes(job, uts))
  {
    ghost var outcomes := TableOutcomes(job, uts);
    var part := NOTHING;
    PlusNothing(NOTHING);
    for i := 0 to |uts|
      invariant JoinedUpTo(NOTHING, outcomes, i, part)
    {
      var next := AcquireTable(job, uts[i], part);
      OutcomeStep(NOTHING, outcomes, i, part, next);
      if next.Raised? {
        return Raised;
      }
      part := next.value;
    }
    assert outcomes[..|outcomes|] == outcomes;
    PlusNothing(Concat(outcomes).value);
    r := Returned(part);
  }

  /** `acquire` */
  method Acquire(job: Job, units: seq<SourceUnit>) returns (r: Outcome<AcquisitionResult>)
    ensures r == Acquisition(job, units)
  {
    var uts := CollectTables(units);
    if uts == [] {
      return Finish(job.documentId, units, Returned(NOTHING.(issues := [Issue(NeedsHumanReview, [])])));
    }
    forall i | 0 <= i < |uts| ensures uts[i].table.rows != [] {
      TablesHaveRows(units, uts[i]);
    }
    var part := AcquireTables(job, uts);
    r := Finish(job.documentId, units, part);
  }
}
