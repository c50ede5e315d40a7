/**
  Published price facts and the runtime price lookup over them.  A Python dictionary is
  the sequence of its items, so that "the last assignment wins" can be said.
 */
module PriceKnowledge {
  import opened Text
  import opened Seqs

  // ----- dictionaries -----

  type Dict = seq<(string, string)>

  /** `d[k] = v`: an existing key keeps its place. */
  function Put(d: Dict, k: string, v: string): Dict {
    if d == [] then [(k, v)]
    else if d[0].0 == k then [(k, v)] + d[1..]
    else [d[0]] + Put(d[1..], k, v)
  }

  /** `d.get(k)` */
  function Get(d: Dict, k: string): Option<string> {
    if d == [] then None else if d[0].0 == k then Some(d[0].1) else Get(d[1..], k)
  }

  /** The dictionary built by assigning the entries one after the other. */
  function FromEntries(es: Dict): Dict {
    if es == [] then [] else Put(FromEntries(es[..|es| - 1]), es[|es| - 1].0, es[|es| - 1].1)
  }

  predicate DistinctKeys(d: Dict) {
    forall i, j :: 0 <= i < j < |d| ==> d[i].0 != d[j].0
  }

  predicate HasKey(d: Dict, k: string) {
    Get(d, k).Some?
  }

  lemma {:induction false} GetPut(d: Dict, k: string, v: string, key: string)
    ensures Get(Put(d, k, v), key) == if key == k then Some(v) else Get(d, key)
  {
    if d != [] && d[0].0 != k {
      GetPut(d[1..], k, v, key);
    }
  }

  lemma {:induction false} PutMembers(d: Dict, k: string, v: string, e: (string, string))
    requires e in Put(d, k, v)
    ensures e in d || e == (k, v)
  {
    if d != [] && d[0].0 != k && e != d[0] {
      PutMembers(d[1..], k, v, e);
    }
  }

  lemma {:induction false} PutKeepsDistinct(d: Dict, k: string, v: string)
    requires DistinctKeys(d)
    ensures DistinctKeys(Put(d, k, v))
  {
    if d != [] && d[0].0 != k {
      PutKeepsDistinct(d[1..], k, v);
      var rest := Put(d[1..], k, v);
      forall j | 0 <= j < |rest| ensures rest[j].0 != d[0].0 {
        PutMembers(d[1..], k, v, rest[j]);
      }
    }
  }

  lemma {:induction false} GetMember(d: Dict, e: (string, string))
    requires DistinctKeys(d)
    ensures e in d <==> Get(d, e.0) == Some(e.1)
  {
    if d != [] {
      GetMember(d[1..], e);
      assert e in d <==> e == d[0] || e in d[1..];
    }
  }

  lemma {:induction false} FromEntriesDistinct(es: Dict)
    ensures DistinctKeys(FromEntries(es))
  {
    if es != [] {
      FromEntriesDistinct(es[..|es| - 1]);
      PutKeepsDistinct(FromEntries(es[..|es| - 1]), es[|es| - 1].0, es[|es| - 1].1);
    }
  }

  /** The dictionary answers with the last entry of a key. */
  lemma {:induction false} GetFromEntries(es: Dict, k: string)
    ensures Get(FromEntries(es), k).None? <==> forall e :: e in es ==> e.0 != k
    ensures Get(FromEntries(es), k).Some? ==> (k, Get(FromEntries(es), k).value) in es
  {
    if es != [] {
      var init, last := es[..|es| - 1], es[|es| - 1];
      GetFromEntries(init, k);
      GetPut(FromEntries(init), last.0, last.1, k);
      assert es == init + [last];
    }
  }

  lemma {:induction false} FromEntriesSubset(es: Dict, e: (string, string))
    requires e in FromEntries(es)
    ensures e in es
  {
    FromEntriesDistinct(es);
    GetMember(FromEntries(es), e);
    GetFromEntries(es, e.0);
  }

  // ----- facts -----

  datatype PriceValueKind = Exact | StartingFrom | Range | OnRequest | UnknownKind
  datatype PriceFactStatus = Draft | NeedsReview | Published | Rejected | Superseded

  /** An amount is kept as its decimal text. */
  datatype Money = Money(amount: string, currency: string)
  datatype PriceRange = PriceRange(min: Money, max: Money)
  datatype SourceRef = SourceRef(documentId: string, unitId: string, rowId: Option<string>, quote: string)

  datatype PriceFact = PriceFact(
    id: string,
    projectId: string,
    documentId: string,
    itemName: string,
    valueKind: PriceValueKind,
    unit: string,
    status: PriceFactStatus,
    amount: Option<Money>,
    range: Option<PriceRange>,
    priceText: string,
    variant: Dict,
    aliases: seq<string>,
    conditions: seq<string>,
    sourceRefs: seq<SourceRef>)

  predicate ValueShape(kind: PriceValueKind, amount: Option<Money>, range: Option<PriceRange>, priceText: string) {
    match kind
    case Exact | StartingFrom => amount.Some? && range.None?
    case Range => range.Some? && amount.None?
    case OnRequest => amount.None? && range.None? && !Blank(priceText)
    case UnknownKind => false
  }

  /** What the constructor of `PublishedPriceFact` accepts. */
  predicate ValidFact(f: PriceFact) {
    && !Blank(f.id) && !Blank(f.projectId) && !Blank(f.documentId) && !Blank(f.itemName) && !Blank(f.unit)
    && f.sourceRefs != []
    && ValueShape(f.valueKind, f.amount, f.range, f.priceText)
  }

  predicate IsPublished(f: PriceFact) {
    f.status == Published
  }

  /** The items of a dictionary with both sides normalised, blank ones left out. */
  function NormalizedEntries(d: Dict): Dict {
    if d == [] then []
    else
      var k, v := NormalizeName(d[0].0), NormalizeValue(d[0].1);
      (if k != "" && v != "" then [(k, v)] else []) + NormalizedEntries(d[1..])
  }

  function NormalEntry(e: (string, string)): (string, string) {
    (NormalizeName(e.0), NormalizeValue(e.1))
  }

  function Effective(e: (string, string)): Dict {
    if NormalEntry(e).0 != "" && NormalEntry(e).1 != "" then [NormalEntry(e)] else []
  }

  lemma EntriesCons(e: (string, string), rest: Dict)
    ensures NormalizedEntries([e] + rest) == Effective(e) + NormalizedEntries(rest)
  {
    assert ([e] + rest)[1..] == rest;
  }

  function NormalizedDict(d: Dict): Dict {
    FromEntries(NormalizedEntries(d))
  }

  predicate MatchesItem(f: PriceFact, item: string) {
    var query := NormalizeValue(item);
    && query != ""
    && (query == NormalizeValue(f.itemName) || query in Map(NormalizeValue, f.aliases))
  }

  /** Every effective filter agrees with the fact's normalised variant. */
  predicate MatchesVariant(f: PriceFact, filters: Dict) {
    AllAgree(NormalizedDict(f.variant), NormalizedEntries(filters))
  }

  predicate AllAgree(variant: Dict, entries: Dict) {
    forall e :: e in entries ==> Get(variant, e.0) == Some(e.1)
  }

  // ----- lookup -----

  datatype LookupQuery = LookupQuery(projectId: string, itemName: string, filters: Dict)

  predicate ValidQuery(q: LookupQuery) {
    !Blank(q.projectId) && !Blank(q.itemName)
  }

  datatype Decision = Answerable | NeedsClarification | RequiresManager | NotFound | Conflict

  /** The result without the query it echoes. */
  datatype LookupResult = LookupResult(decision: Decision, facts: seq<PriceFact>, missingSlots: seq<string>)

  function AskedAbout(q: LookupQuery): PriceFact -> bool {
    (f: PriceFact) => f.projectId == q.projectId && MatchesItem(f, q.itemName)
  }

  function Eligible(q: LookupQuery, facts: seq<PriceFact>): seq<PriceFact> {
    Filter(AskedAbout(q), Filter(IsPublished, facts))
  }

  function NotGiven(filters: Dict): string -> bool {
    (slot: string) => slot != "" && !HasKey(NormalizedDict(filters), slot)
  }

  function MatchesFilters(filters: Dict): PriceFact -> bool {
    (f: PriceFact) => MatchesVariant(f, filters)
  }

  function MissingSlots(filters: Dict, slots: seq<string>): seq<string> {
    Filter(NotGiven(filters), Map(NormalizeName, slots))
  }

  function Decide(matching: seq<PriceFact>): (r: LookupResult)
    ensures r.decision != NeedsClarification && r.missingSlots == []
    ensures r.decision == Answerable <==> |matching| == 1 && matching[0].valueKind != OnRequest
    ensures r.facts == matching
  {
    if matching == [] then LookupResult(NotFound, [], [])
    else if |matching| > 1 then LookupResult(Conflict, matching, [])
    else if matching[0].valueKind == OnRequest then LookupResult(RequiresManager, matching, [])
    else LookupResult(Answerable, matching, [])
  }

  /** `lookup_price_fact` */
  function Lookup(q: LookupQuery, facts: seq<PriceFact>, slots: seq<string>): LookupResult {
    var eligible := Eligible(q, facts);
    if eligible == [] then LookupResult(NotFound, [], [])
    else
      var missing := MissingSlots(q.filters, slots);
      if missing != [] then LookupResult(NeedsClarification, eligible, missing)
      else Decide(Filter(MatchesFilters(q.filters), eligible))
  }

  /** A fact a lookup may speak about: published, of the project, of that name. */
  ghost predicate Speaks(q: LookupQuery, f: PriceFact) {
    f.status == Published && f.projectId == q.projectId && MatchesItem(f, q.itemName)
  }

  lemma EligibleMember(q: LookupQuery, facts: seq<PriceFact>, f: PriceFact)
    ensures f in Eligible(q, facts) <==> f in facts && Speaks(q, f)
  {
    FilterMember(IsPublished, facts, f);
    FilterMember(AskedAbout(q), Filter(IsPublished, facts), f);
  }

  /**
    Every fact in an answer is published and about the item asked for; unless a slot is
    still missing it also agrees with every filter.
   */
  lemma LookupGrounded(q: LookupQuery, facts: seq<PriceFact>, slots: seq<string>, f: PriceFact)
    requires f in Lookup(q, facts, slots).facts
    ensures f in facts && Speaks(q, f)
    ensures Lookup(q, facts, slots).decision == NeedsClarification || MatchesVariant(f, q.filters)
  {
    EligibleMember(q, facts, f);
    FilterMember(MatchesFilters(q.filters), Eligible(q, facts), f);
  }

  /** The invariants the result constructor checks hold for every lookup. */
  lemma {:induction false} LookupResultValid(q: LookupQuery, facts: seq<PriceFact>, slots: seq<string>)
    ensures var r := Lookup(q, facts, slots);
      && (r.decision == Answerable ==> |r.facts| == 1 && IsPublished(r.facts[0]))
      && (r.decision == NeedsClarification <==> r.missingSlots != [])
  {
    var r := Lookup(q, facts, slots);
    if r.decision == Answerable {
      var f := r.facts[0];
      assert f in r.facts;
      LookupGrounded(q, facts, slots, f);
    }
  }

  // ----- unpublished facts are invisible -----

  /** `zs` is `xs` with the elements of `ys` inserted anywhere, both orders kept. */
  ghost predicate Interleaves<T(!new)>(xs: seq<T>, ys: seq<T>, zs: seq<T>)
    decreases |zs|
  {
    if zs == [] then xs == [] && ys == []
    else
      || (xs != [] && zs[0] == xs[0] && Interleaves(xs[1..], ys, zs[1..]))
      || (ys != [] && zs[0] == ys[0] && Interleaves(xs, ys[1..], zs[1..]))
  }

  lemma {:induction false} InterleavedFilter<T(!new)>(p: T -> bool, xs: seq<T>, ys: seq<T>, zs: seq<T>)
    requires Interleaves(xs, ys, zs) && forall y :: y in ys ==> !p(y)
    ensures Filter(p, zs) == Filter(p, xs)
    decreases |zs|
  {
    if zs != [] {
      if xs != [] && zs[0] == xs[0] && Interleaves(xs[1..], ys, zs[1..]) {
        InterleavedFilter(p, xs[1..], ys, zs[1..]);
      } else {
        assert ys[0] in ys;
        InterleavedFilter(p, xs, ys[1..], zs[1..]);
      }
    }
  }

  /** Interleaving any unpublished facts leaves every lookup unchanged. */
  lemma {:induction false} UnpublishedInvisible(q: LookupQuery, facts: seq<PriceFact>, extra: seq<PriceFact>,
                             all: seq<PriceFact>, slots: seq<string>)
    requires Interleaves(facts, extra, all)
    requires forall f :: f in extra ==> !IsPublished(f)
    ensures Lookup(q, all, slots) == Lookup(q, facts, slots)
  {
    InterleavedFilter(IsPublished, facts, extra, all);
  }
}
