/**
  What conflicts are about and how they are settled, said about sources, dates and the
  facts themselves: which snapshot each policy selects, which facts are about the same
  thing, and which say the same.
 */
module ResolutionLaws {
  import opened Text
  import opened Seqs
  import opened PriceKnowledge
  import opened LookupLaws
  import opened CommercialTruth

  // ----- the order of sources -----

  /** The authority of a source: the one stated, else the one its kind has. */
  predicate HasAuthority(source: Source, a: Authority) {
    match source.authority
    case Some(stated) => a == stated
    case None =>
      match a
      case Live => source.kind in {LiveCrm, LiveCatalog, LiveBilling, LiveStock}
      case Primary => source.kind in {StructuredPriceList, CommercialOffer}
      case Supporting => source.kind in {Faq, Document}
      case UnknownAuthority => source.kind == UnknownSource
  }

  predicate SameAuthority(s: Source, t: Source) {
    forall a: Authority :: HasAuthority(s, a) <==> HasAuthority(t, a)
  }

  /** Live above primary above supporting above unknown. */
  predicate AuthorityAbove(s: Source, t: Source) {
    || (HasAuthority(s, Live) && !HasAuthority(t, Live))
    || (HasAuthority(s, Primary) && (HasAuthority(t, Supporting) || HasAuthority(t, UnknownAuthority)))
    || (HasAuthority(s, Supporting) && HasAuthority(t, UnknownAuthority))
  }

  lemma RankMeaning(s: Source, t: Source)
    ensures AuthorityAbove(s, t) <==> AuthorityRank(s) > AuthorityRank(t)
    ensures SameAuthority(s, t) <==> AuthorityRank(s) == AuthorityRank(t)
  {
    AuthorityOf(s);
    AuthorityOf(t);
  }

  lemma AuthorityOf(s: Source)
    ensures HasAuthority(s, Live) <==> AuthorityRank(s) == 300
    ensures HasAuthority(s, Primary) <==> AuthorityRank(s) == 200
    ensures HasAuthority(s, Supporting) <==> AuthorityRank(s) == 100
    ensures HasAuthority(s, UnknownAuthority) <==> AuthorityRank(s) == 0
  {
  }

  // ----- selection by any standing -----

  /** Nobody stands higher than the snapshot at `i`, and nobody before it as high. */
  ghost predicate FirstHighest(standing: Snapshot -> Option<int>, group: seq<Snapshot>, i: nat) {
    && i < |group| && standing(group[i]).Some?
    && (forall j :: 0 <= j < |group| && standing(group[j]).Some? ==>
          standing(group[j]).value <= standing(group[i]).value)
    && forall j :: 0 <= j < i ==> standing(group[j]) != standing(group[i])
  }

  /** All that stand as high say the same. */
  ghost predicate Agree(standing: Snapshot -> Option<int>, group: seq<Snapshot>, i: nat)
    requires i < |group|
  {
    forall j :: 0 <= j < |group| && standing(group[j]) == standing(group[i]) ==>
      group[j].signature == group[i].signature
  }

  lemma WinnersFirst(standing: Snapshot -> Option<int>, group: seq<Snapshot>) returns (i: nat)
    requires Winners(standing, group) != []
    ensures FirstHighest(standing, group, i) && Winners(standing, group)[0] == group[i]
    ensures |SignaturesOf(Winners(standing, group))| == 1 <==> Agree(standing, group, i)
  {
    var p := StandsAt(standing, Highest(standing, group));
    var winners := Winners(standing, group);
    HighestSpec(standing, group);
    WinnersExist(standing, group);
    var at := FilterPicks(p, group);
    PicksFirst(p, group, at, winners);
    assert at[0] in at;
    i := at[0];
    forall j | 0 <= j < i ensures standing(group[j]) != standing(group[i]) {
      assert p(group[j]) ==> j in at;
    }
    SingleSignature(winners);
    AgreeIff(standing, group, i, winners);
  }

  lemma AgreeIff(standing: Snapshot -> Option<int>, group: seq<Snapshot>, i: nat, winners: seq<Snapshot>)
    requires i < |group| && standing(group[i]).Some? && standing(group[i]) == Highest(standing, group)
    requires winners == Winners(standing, group)
    ensures (forall s :: s in winners ==> s.signature == group[i].signature) <==> Agree(standing, group, i)
  {
    var p := StandsAt(standing, Highest(standing, group));
    forall s ensures s in winners <==> s in group && standing(s) == standing(group[i]) {
      FilterMember(p, group, s);
    }
    forall s | s in winners && Agree(standing, group, i) ensures s.signature == group[i].signature {
      var j :| 0 <= j < |group| && group[j] == s;
    }
    if forall s :: s in winners ==> s.signature == group[i].signature {
      forall j | 0 <= j < |group| && standing(group[j]) == standing(group[i])
        ensures group[j].signature == group[i].signature
      {
        assert group[j] in winners;
      }
    }
  }

  // ----- the policies -----

  /** Nobody in the group has a higher authority than the source at `i`, and nobody before it the same. */
  ghost predicate FirstInAuthority(group: seq<Snapshot>, i: nat) {
    && i < |group|
    && (forall j :: 0 <= j < |group| ==> !AuthorityAbove(group[j].source, group[i].source))
    && forall j :: 0 <= j < i ==> !SameAuthority(group[j].source, group[i].source)
  }

  ghost predicate AuthorityAgrees(group: seq<Snapshot>, i: nat)
    requires i < |group|
  {
    forall j :: 0 <= j < |group| && SameAuthority(group[j].source, group[i].source) ==>
      group[j].signature == group[i].signature
  }

  /**
    Higher authority wins: of the sources with the highest authority in the group the
    first is selected if they all say the same; otherwise a person decides.
   */
  lemma HigherAuthorityExact(group: seq<Snapshot>)
    requires group != []
    ensures exists i: nat :: FirstInAuthority(group, i) &&
              Resolve(group, HigherAuthorityWins) ==
                if AuthorityAgrees(group, i) then ResolvedByPolicy(group[i], HigherAuthoritySelected)
                else Unresolved(HigherAuthorityTie)
  {
    var standing := Standing(HigherAuthorityWins);
    WinnersExist(standing, group);
    HighestSpec(standing, group);
    assert group[0] in group && standing(group[0]).Some?;
    var i := WinnersFirst(standing, group);
    forall j: nat | j < |group|
      ensures AuthorityAbove(group[j].source, group[i].source) <==> standing(group[j]).value > standing(group[i]).value
      ensures SameAuthority(group[j].source, group[i].source) <==> standing(group[j]) == standing(group[i])
    {
      RankMeaning(group[j].source, group[i].source);
    }
    assert FirstInAuthority(group, i);
    assert AuthorityAgrees(group, i) <==> Agree(standing, group, i);
  }

  predicate Dated(s: Snapshot) {
    s.source.observedAt.Some?
  }

  ghost predicate FirstLatest(group: seq<Snapshot>, i: nat) {
    && i < |group| && Dated(group[i])
    && (forall j :: 0 <= j < |group| && Dated(group[j]) ==>
          group[j].source.observedAt.value <= group[i].source.observedAt.value)
    && forall j :: 0 <= j < i ==> group[j].source.observedAt != group[i].source.observedAt
  }

  ghost predicate LatestAgree(group: seq<Snapshot>, i: nat)
    requires i < |group|
  {
    forall j :: 0 <= j < |group| && group[j].source.observedAt == group[i].source.observedAt ==>
      group[j].signature == group[i].signature
  }

  /**
    The newer source wins: of the latest dated sources the first is selected if they all
    say the same; undated ones never are.
   */
  lemma NewerSourceExact(group: seq<Snapshot>)
    ensures (forall j :: 0 <= j < |group| ==> !Dated(group[j])) ==>
              Resolve(group, NewerSourceWins) == Unresolved(ObservedAtRequired)
    ensures (exists j :: 0 <= j < |group| && Dated(group[j])) ==>
              exists i: nat :: FirstLatest(group, i) &&
                Resolve(group, NewerSourceWins) ==
                  if LatestAgree(group, i) then ResolvedByPolicy(group[i], NewerSourceSelected)
                  else Unresolved(NewerSourceTie)
  {
    var standing := Standing(NewerSourceWins);
    WinnersExist(standing, group);
    HighestSpec(standing, group);
    if j :| 0 <= j < |group| && Dated(group[j]) {
      assert group[j] in group && standing(group[j]).Some?;
      var i := WinnersFirst(standing, group);
      assert FirstLatest(group, i);
      assert LatestAgree(group, i) <==> Agree(standing, group, i);
    }
  }

  /** Left to a person, nothing is ever selected. */
  lemma ManualReviewExact(group: seq<Snapshot>)
    ensures Resolve(group, ManualReview) == Unresolved(ManualReviewRequired)
  {
  }

  // ----- about the same thing -----

  /** The same slots with the same values, the last one given counting. */
  ghost predicate SameVariant(c: Dict, d: Dict) {
    forall slot, value :: Holds(c, slot, value) <==> Holds(d, slot, value)
  }

  function VariantSet(d: Dict): set<(string, string)> {
    set e | e in NormalizedDict(d)
  }

  lemma VariantMember(d: Dict, e: (string, string))
    ensures e in VariantSet(d) <==> Get(NormalizedDict(d), e.0) == Some(e.1)
  {
    FromEntriesDistinct(NormalizedEntries(d));
    GetMember(NormalizedDict(d), e);
  }

  lemma VariantEntry(d: Dict, e: (string, string))
    requires e in VariantSet(d)
    ensures NormalizeName(e.0) == e.0 && NormalizeValue(e.1) == e.1 && Holds(d, e.0, e.1)
  {
    FromEntriesSubset(NormalizedEntries(d), e);
    EntryIff(d, e);
    var i: nat :| i < |d| && Given(d, i) && e == NormalEntry(d[i]);
    NormalizeNameIdempotent(d[i].0);
    NormalizeValueIdempotent(d[i].1);
    VariantMember(d, e);
    DictHolds(d, e.0, e.1);
  }

  lemma HoldsInSet(d: Dict, slot: string, value: string)
    ensures Holds(d, slot, value) <==> (NormalizeName(slot), NormalizeValue(value)) in VariantSet(d)
  {
    DictHolds(d, slot, value);
    VariantMember(d, (NormalizeName(slot), NormalizeValue(value)));
  }

  lemma SameVariantIff(c: Dict, d: Dict)
    ensures VariantSet(c) == VariantSet(d) <==> SameVariant(c, d)
  {
    forall slot, value ensures Holds(c, slot, value) <==> (NormalizeName(slot), NormalizeValue(value)) in VariantSet(c)
      ensures Holds(d, slot, value) <==> (NormalizeName(slot), NormalizeValue(value)) in VariantSet(d)
    {
      HoldsInSet(c, slot, value);
      HoldsInSet(d, slot, value);
    }
    if SameVariant(c, d) {
      forall e ensures e in VariantSet(c) <==> e in VariantSet(d) {
        if e in VariantSet(c) {
          VariantEntry(c, e);
          assert Holds(d, e.0, e.1);
        }
        if e in VariantSet(d) {
          VariantEntry(d, e);
          assert Holds(c, e.0, e.1);
        }
      }
    }
  }

  /** Two facts are about the same thing: project, item, unit and variant, up to spelling. */
  lemma SameIdentityIff(f: PriceFact, g: PriceFact)
    ensures IdentityOf(f) == IdentityOf(g) <==>
            && f.projectId == g.projectId && SameWords(f.itemName, g.itemName) && SameWords(f.unit, g.unit)
            && SameVariant(f.variant, g.variant)
  {
    SameNormalValueIff(f.itemName, g.itemName);
    SameNormalValueIff(f.unit, g.unit);
    SameVariantIff(f.variant, g.variant);
    assert IdentityOf(f).variant == VariantSet(f.variant) && IdentityOf(g).variant == VariantSet(g.variant);
  }

  // ----- saying the same -----

  lemma SameCaseIff(a: string, b: string)
    ensures Upper(a) == Upper(b) <==> Lower(a) == Lower(b)
  {
    forall i | 0 <= i < |a| && |a| == |b|
      ensures UpperChar(a[i]) == UpperChar(b[i]) <==> LowerChar(a[i]) == LowerChar(b[i])
    {
    }
    if Upper(a) == Upper(b) {
      assert |Upper(a)| == |a| && |Upper(b)| == |b|;
      forall i | 0 <= i < |a| ensures Lower(a)[i] == Lower(b)[i] {
        assert Upper(a)[i] == UpperChar(a[i]) && Upper(b)[i] == UpperChar(b[i]);
      }
    }
    if Lower(a) == Lower(b) {
      forall i | 0 <= i < |a| ensures Upper(a)[i] == Upper(b)[i] {
        assert Lower(a)[i] == LowerChar(a[i]) && Lower(b)[i] == LowerChar(b[i]);
      }
    }
  }

  /** The same decimal text in the same currency, up to case and surrounding space. */
  predicate SameMoney(m: Money, n: Money) {
    m.amount == n.amount && Lower(Strip(m.currency)) == Lower(Strip(n.currency))
  }

  lemma SameMoneyIff(m: Money, n: Money)
    ensures MoneySignature(m) == MoneySignature(n) <==> SameMoney(m, n)
  {
    SameCaseIff(Strip(m.currency), Strip(n.currency));
  }

  predicate SameAmount(a: Option<Money>, b: Option<Money>) {
    (a.None? && b.None?) || (a.Some? && b.Some? && SameMoney(a.value, b.value))
  }

  predicate SameRange(a: Option<PriceRange>, b: Option<PriceRange>) {
    || (a.None? && b.None?)
    || (a.Some? && b.Some? && SameMoney(a.value.min, b.value.min) && SameMoney(a.value.max, b.value.max))
  }

  function WithWordsOf(text: string): string -> bool {
    (c: string) => SameWords(c, text)
  }

  /** Every condition that says something is stated equally often. */
  ghost predicate SameConditions(a: seq<string>, b: seq<string>) {
    forall text :: Words(text) != [] ==> |Filter(WithWordsOf(text), a)| == |Filter(WithWordsOf(text), b)|
  }

  lemma {:induction false} ConditionCount(conditions: seq<string>, text: string)
    requires Words(text) != []
    ensures multiset(Filter(Stated(), Map(NormalizeValue, conditions)))[NormalizeValue(text)]
         == |Filter(WithWordsOf(text), conditions)|
  {
    if conditions != [] {
      var c, rest := conditions[0], conditions[1..];
      ConditionCount(rest, text);
      NormalValueEmpty(text);
      SameNormalValueIff(c, text);
      assert Map(NormalizeValue, conditions) == [NormalizeValue(c)] + Map(NormalizeValue, rest);
      FilterConcat(Stated(), [NormalizeValue(c)], Map(NormalizeValue, rest));
    }
  }

  function ConditionSet(conditions: seq<string>): multiset<string> {
    multiset(Filter(Stated(), Map(NormalizeValue, conditions)))
  }

  lemma ConditionEntry(conditions: seq<string>, x: string)
    requires x in ConditionSet(conditions)
    ensures NormalizeValue(x) == x && Words(x) != []
  {
    var normal := Map(NormalizeValue, conditions);
    FilterMember(Stated(), normal, x);
    assert x in Filter(Stated(), normal);
    var i :| 0 <= i < |normal| && normal[i] == x;
    NormalizeValueIdempotent(conditions[i]);
    NormalValueEmpty(x);
  }

  lemma SameConditionsIff(a: seq<string>, b: seq<string>)
    ensures ConditionSet(a) == ConditionSet(b) <==> SameConditions(a, b)
  {
    if ConditionSet(a) == ConditionSet(b) {
      forall text | Words(text) != [] ensures |Filter(WithWordsOf(text), a)| == |Filter(WithWordsOf(text), b)| {
        ConditionCount(a, text);
        ConditionCount(b, text);
      }
    }
    if SameConditions(a, b) {
      forall x ensures ConditionSet(a)[x] == ConditionSet(b)[x] {
        if x in ConditionSet(a) || x in ConditionSet(b) {
          if x in ConditionSet(a) {
            ConditionEntry(a, x);
          } else {
            ConditionEntry(b, x);
          }
          ConditionCount(a, x);
          ConditionCount(b, x);
        }
      }
    }
  }

  /** Two facts say the same: kind, amount, range, wording and conditions, up to spelling. */
  lemma SameSignatureIff(f: PriceFact, g: PriceFact)
    ensures SignatureOf(f) == SignatureOf(g) <==>
            && f.valueKind == g.valueKind && SameAmount(f.amount, g.amount) && SameRange(f.range, g.range)
            && SameWords(f.priceText, g.priceText) && SameConditions(f.conditions, g.conditions)
  {
    if f.amount.Some? && g.amount.Some? {
      SameMoneyIff(f.amount.value, g.amount.value);
    }
    if f.range.Some? && g.range.Some? {
      SameMoneyIff(f.range.value.min, g.range.value.min);
      SameMoneyIff(f.range.value.max, g.range.value.max);
    }
    SameNormalValueIff(f.priceText, g.priceText);
    SameConditionsIff(f.conditions, g.conditions);
    assert SignatureOf(f).conditions == ConditionSet(f.conditions);
    assert SignatureOf(g).conditions == ConditionSet(g.conditions);
  }
}
