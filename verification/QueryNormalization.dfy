/**
  When a price query may be replaced by its normal form: exactly when no two of its
  effective filters ask for different values of one slot.
 */
module QueryNormalization {
  import opened Text
  import opened Seqs
  import opened PriceKnowledge

  function NormalizedQuery(q: LookupQuery): LookupQuery {
    LookupQuery(q.projectId, NormalizeValue(q.itemName), NormalizedDict(q.filters))
  }

  /** Filters that name the same slot agree on its value.  Holds whenever no two keys normalise to one slot. */
  predicate ConsistentFilters(filters: Dict) {
    Consistent(NormalizedEntries(filters))
  }

  predicate Consistent(entries: Dict) {
    forall d, e :: d in entries && e in entries && d.0 == e.0 ==> d.1 == e.1
  }

  predicate IsNormalEntry(e: (string, string)) {
    e.0 != "" && e.1 != "" && NormalizeName(e.0) == e.0 && NormalizeValue(e.1) == e.1
  }

  lemma {:induction false} EntriesAreNormal(d: Dict, e: (string, string))
    requires e in NormalizedEntries(d)
    ensures IsNormalEntry(e)
  {
    var k, v := NormalizeName(d[0].0), NormalizeValue(d[0].1);
    if k != "" && v != "" && e == (k, v) {
      NormalizeNameIdempotent(d[0].0);
      NormalizeValueIdempotent(d[0].1);
    } else {
      EntriesAreNormal(d[1..], e);
    }
  }

  lemma {:induction false} NormalEntriesFixed(d: Dict)
    requires forall e :: e in d ==> IsNormalEntry(e)
    ensures NormalizedEntries(d) == d
  {
    if d != [] {
      assert IsNormalEntry(d[0]);
      EntriesCons(d[0], d[1..]);
      assert d == [d[0]] + d[1..];
      NormalEntriesFixed(d[1..]);
    }
  }

  /** The effective filters of the normal form are its dictionary of effective filters. */
  lemma {:induction false} EntriesOfNormalized(filters: Dict)
    ensures NormalizedEntries(NormalizedDict(filters)) == NormalizedDict(filters)
  {
    forall e | e in NormalizedDict(filters) ensures IsNormalEntry(e) {
      FromEntriesSubset(NormalizedEntries(filters), e);
      EntriesAreNormal(filters, e);
    }
    NormalEntriesFixed(NormalizedDict(filters));
  }

  lemma {:induction false} DistinctFixed(d: Dict)
    requires DistinctKeys(d)
    ensures forall k :: Get(FromEntries(d), k) == Get(d, k)
  {
    forall k ensures Get(FromEntries(d), k) == Get(d, k) {
      GetFromEntries(d, k);
      match Get(FromEntries(d), k) {
        case Some(v) => GetMember(d, (k, v));
        case None => NoKey(d, k);
      }
    }
  }

  lemma {:induction false} NoKey(d: Dict, k: string)
    requires forall e :: e in d ==> e.0 != k
    ensures Get(d, k) == None
  {
    if d != [] {
      assert d[0] in d;
      NoKey(d[1..], k);
    }
  }

  /** The normal form asks for the same slots. */
  lemma {:induction false} SlotsOfNormalized(filters: Dict, slot: string)
    ensures HasKey(NormalizedDict(NormalizedDict(filters)), slot) == HasKey(NormalizedDict(filters), slot)
  {
    EntriesOfNormalized(filters);
    FromEntriesDistinct(NormalizedEntries(filters));
    DistinctFixed(NormalizedDict(filters));
  }

  lemma {:induction false} MapIdempotent(f: string -> string, xs: seq<string>)
    requires forall x :: f(f(x)) == f(x)
    ensures Map(f, Map(f, xs)) == Map(f, xs)
  {
  }

  lemma {:induction false} MissingSlotsOfNormalized(filters: Dict, slots: seq<string>)
    ensures MissingSlots(NormalizedDict(filters), Map(NormalizeName, slots)) == MissingSlots(filters, slots)
  {
    forall s: string ensures NormalizeName(NormalizeName(s)) == NormalizeName(s) {
      NormalizeNameIdempotent(s);
    }
    MapIdempotent(NormalizeName, slots);
    var names := Map(NormalizeName, slots);
    forall slot | slot in names
      ensures HasKey(NormalizedDict(NormalizedDict(filters)), slot) == HasKey(NormalizedDict(filters), slot)
    {
      SlotsOfNormalized(filters, slot);
    }
    FilterSame(NotGiven(NormalizedDict(filters)), NotGiven(filters), names);
  }

  /** Consistent entries and their dictionary hold the same pairs. */
  lemma ConsistentKeepsEntries(entries: Dict, e: (string, string))
    requires Consistent(entries)
    ensures e in entries <==> e in FromEntries(entries)
  {
    FromEntriesDistinct(entries);
    GetMember(FromEntries(entries), e);
    GetFromEntries(entries, e.0);
  }

  lemma {:induction false} AgreementOfNormalized(variant: Dict, filters: Dict)
    requires ConsistentFilters(filters)
    ensures AllAgree(variant, NormalizedEntries(NormalizedDict(filters)))
         == AllAgree(variant, NormalizedEntries(filters))
  {
    EntriesOfNormalized(filters);
    forall e: (string, string)
      ensures e in NormalizedEntries(filters) <==> e in NormalizedDict(filters)
    {
      ConsistentKeepsEntries(NormalizedEntries(filters), e);
    }
  }

  lemma EligibleOfNormalized(q: LookupQuery, facts: seq<PriceFact>)
    ensures Eligible(NormalizedQuery(q), facts) == Eligible(q, facts)
  {
    NormalizeValueIdempotent(q.itemName);
    FilterSame(AskedAbout(NormalizedQuery(q)), AskedAbout(q), Filter(IsPublished, facts));
  }

  lemma MatchingOfNormalized(filters: Dict, facts: seq<PriceFact>)
    requires ConsistentFilters(filters)
    ensures Filter(MatchesFilters(NormalizedDict(filters)), facts) == Filter(MatchesFilters(filters), facts)
  {
    forall f: PriceFact
      ensures MatchesVariant(f, NormalizedDict(filters)) == MatchesVariant(f, filters)
    {
      AgreementOfNormalized(NormalizedDict(f.variant), filters);
    }
    FilterSame(MatchesFilters(NormalizedDict(filters)), MatchesFilters(filters), facts);
  }

  lemma {:induction false} NormalizedSameAnswer(q: LookupQuery, facts: seq<PriceFact>, slots: seq<string>)
    requires ConsistentFilters(q.filters)
    ensures Lookup(NormalizedQuery(q), facts, Map(NormalizeName, slots)) == Lookup(q, facts, slots)
  {
    EligibleOfNormalized(q, facts);
    MissingSlotsOfNormalized(q.filters, slots);
    MatchingOfNormalized(q.filters, Eligible(q, facts));
  }

  // ----- and only then -----

  ghost predicate ValidFacts(facts: seq<PriceFact>) {
    forall f :: f in facts ==> ValidFact(f)
  }

  /** The query and its normal form give the same answer over every set of facts. */
  ghost predicate Interchangeable(q: LookupQuery) {
    forall facts, slots | ValidFacts(facts) ::
      Lookup(NormalizedQuery(q), facts, Map(NormalizeName, slots)) == Lookup(q, facts, slots)
  }

  /** A published fact that carries exactly the values the normal form asks for. */
  function WitnessFact(q: LookupQuery): PriceFact {
    PriceFact("f", q.projectId, "d", q.itemName, Exact, "item", Published, Some(Money("1", "RUB")), None, "",
              NormalizedDict(q.filters), [], [], [SourceRef("d", "u", None, "q")])
  }

  lemma {:induction false} WitnessValid(q: LookupQuery)
    requires ValidQuery(q)
    ensures ValidFact(WitnessFact(q))
  {
  }

  lemma {:induction false} WitnessAgreesWithNormalized(q: LookupQuery)
    ensures MatchesVariant(WitnessFact(q), NormalizedDict(q.filters))
  {
    var d := NormalizedDict(q.filters);
    EntriesOfNormalized(q.filters);
    FromEntriesDistinct(NormalizedEntries(q.filters));
    DistinctFixed(d);
    forall e | e in d ensures Get(NormalizedDict(d), e.0) == Some(e.1) {
      GetMember(d, e);
    }
  }

  lemma {:induction false} WitnessDisagrees(q: LookupQuery)
    requires !ConsistentFilters(q.filters)
    ensures !MatchesVariant(WitnessFact(q), q.filters)
  {
  }

  lemma {:induction false} LookupOfOne(q: LookupQuery, f: PriceFact)
    requires Speaks(q, f) && f.valueKind != OnRequest
    ensures Lookup(q, [f], []) == if MatchesVariant(f, q.filters) then LookupResult(Answerable, [f], [])
                                  else LookupResult(NotFound, [], [])
  {
  }

  lemma {:induction false} ConflictingFiltersDiffer(q: LookupQuery)
    requires ValidQuery(q) && !ConsistentFilters(q.filters)
    ensures Lookup(NormalizedQuery(q), [WitnessFact(q)], []).decision == Answerable
    ensures Lookup(q, [WitnessFact(q)], []).decision == NotFound
  {
    var f := WitnessFact(q);
    NormalizeValueEmpty(q.itemName);
    NormalizeValueIdempotent(q.itemName);
    WitnessAgreesWithNormalized(q);
    WitnessDisagrees(q);
    LookupOfOne(q, f);
    LookupOfOne(NormalizedQuery(q), f);
  }

  /** Two spellings of one slot that ask for two values are different keys and inconsistent filters. */
  lemma SpellingsConflict(k: string, l: string, v: string, w: string)
    requires IsWord(k) && IsWord(l) && k != l && Lower(k) == Lower(l) && '_' !in Lower(k)
    requires IsWord(v) && IsWord(w) && Lower(v) != Lower(w) && '_' !in Lower(v) && '_' !in Lower(w)
    ensures DistinctKeys([(k, v), (l, w)])
    ensures !ConsistentFilters([(k, v), (l, w)])
  {
    NormalizeWord(k);
    NormalizeWord(l);
    NormalizeWord(v);
    NormalizeWord(w);
    TwoEntries((k, v), (l, w));
  }

  lemma TwoEntries(d: (string, string), e: (string, string))
    requires NormalizeName(d.0) == NormalizeName(e.0) != "" && NormalizeValue(d.1) != "" && NormalizeValue(e.1) != ""
    ensures ConsistentFilters([d, e]) <==> NormalizeValue(d.1) == NormalizeValue(e.1)
  {
    EntriesCons(d, [e]);
    EntriesCons(e, []);
    assert [d, e] == [d] + [e] && [e] == [e] + [];
    PairConsistent((NormalizeName(d.0), NormalizeValue(d.1)), (NormalizeName(e.0), NormalizeValue(e.1)));
  }

  lemma PairConsistent(x: (string, string), y: (string, string))
    requires x.0 == y.0
    ensures Consistent([x] + ([y] + [])) <==> x.1 == y.1
  {
    var both := [x] + ([y] + []);
    assert both[0] == x && both[1] == y;
  }

  function LetterFilters(k: char, l: char, v: char, w: char): Dict {
    [([k], [v]), ([l], [w])]
  }

  lemma LettersConflict(k: char, l: char, v: char, w: char)
    requires IsLetter(k) && IsLetter(l) && IsLetter(v) && IsLetter(w)
    requires k != l && LowerChar(k) == LowerChar(l) && LowerChar(v) != LowerChar(w)
    ensures DistinctKeys(LetterFilters(k, l, v, w)) && !ConsistentFilters(LetterFilters(k, l, v, w))
  {
    assert [k][0] != [l][0] && Lower([k]) == Lower([l]) && Lower([v])[0] != Lower([w])[0];
    SpellingsConflict([k], [l], [v], [w]);
  }

  /** A dictionary a caller can build and whose lookups the normal form changes: `{"s": "m", "S": "l"}`. */
  lemma SizesConflict()
    ensures exists filters :: DistinctKeys(filters) && !ConsistentFilters(filters)
  {
    LettersConflict('s', 'S', 'm', 'l');
  }

  /** A query may be normalised first if and only if its filters are consistent. */
  lemma InterchangeableIffConsistent(q: LookupQuery)
    requires ValidQuery(q)
    ensures Interchangeable(q) <==> ConsistentFilters(q.filters)
  {
    if ConsistentFilters(q.filters) {
      forall facts, slots | ValidFacts(facts)
        ensures Lookup(NormalizedQuery(q), facts, Map(NormalizeName, slots)) == Lookup(q, facts, slots)
      {
        NormalizedSameAnswer(q, facts, slots);
      }
    } else {
      var facts := [WitnessFact(q)];
      WitnessValid(q);
      ConflictingFiltersDiffer(q);
      assert ValidFacts(facts) && Map(NormalizeName, []) == [];
      assert Lookup(NormalizedQuery(q), facts, Map(NormalizeName, [])) != Lookup(q, facts, []);
    }
  }

  /** The condition a caller usually has: no two filter keys normalise to one slot. */
  lemma {:induction false} DistinctSlotsConsistent(filters: Dict)
    requires forall i, j :: 0 <= i < j < |filters| ==> NormalizeName(filters[i].0) != NormalizeName(filters[j].0)
    ensures ConsistentFilters(filters)
  {
    EntriesConsistent(filters);
  }

  lemma {:induction false} EntryOrigin(d: Dict, e: (string, string))
    requires e in NormalizedEntries(d)
    ensures exists i :: 0 <= i < |d| && NormalizeName(d[i].0) == e.0
  {
    var k, v := NormalizeName(d[0].0), NormalizeValue(d[0].1);
    if k != e.0 {
      EntryOrigin(d[1..], e);
      var i :| 0 <= i < |d[1..]| && NormalizeName(d[1..][i].0) == e.0;
      assert d[i + 1] == d[1..][i];
    }
  }

  lemma {:induction false} EntriesConsistent(filters: Dict)
    requires forall i, j :: 0 <= i < j < |filters| ==> NormalizeName(filters[i].0) != NormalizeName(filters[j].0)
    ensures Consistent(NormalizedEntries(filters))
  {
    if filters != [] {
      EntriesConsistent(filters[1..]);
      forall e | e in NormalizedEntries(filters[1..]) ensures e.0 != NormalizeName(filters[0].0) {
        EntryOrigin(filters[1..], e);
        var i :| 0 <= i < |filters[1..]| && NormalizeName(filters[1..][i].0) == e.0;
        assert filters[i + 1] == filters[1..][i];
      }
    }
  }
}
