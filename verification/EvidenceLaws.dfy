/**
  Evidence selection and planning, said about source types, freshness, confidence and the
  needs themselves, without ranks: which item is preferred, and everything a decision says.
 */
module EvidenceLaws {
  import opened Text
  import opened Seqs
  import opened StableSort
  import opened SourceAuthority
  import opened EvidencePlan

  // ----- who stands above whom -----

  /** The source types an answer is taken from only when this one is missing. */
  function Under(t: SourceType): set<SourceType> {
    match t
    case ManagerOverride =>
      {CrmOperational, CatalogOperational, ToolResult, CompiledPriceList, CompiledKnowledge, ConversationMemory,
       UserMessage}
    case CrmOperational =>
      {CatalogOperational, ToolResult, CompiledPriceList, CompiledKnowledge, ConversationMemory, UserMessage}
    case CatalogOperational => {ToolResult, CompiledPriceList, CompiledKnowledge, ConversationMemory, UserMessage}
    case ToolResult => {CompiledPriceList, CompiledKnowledge, ConversationMemory, UserMessage}
    case CompiledPriceList => {CompiledKnowledge, ConversationMemory, UserMessage}
    case CompiledKnowledge => {ConversationMemory, UserMessage}
    case ConversationMemory => {UserMessage}
    case UserMessage => {}
    case LlmReasoning => {}
  }

  predicate Fresher(f: Freshness, g: Freshness) {
    match f
    case LiveData => g != LiveData
    case Current => g == SnapshotData || g == UnknownFreshness || g == Stale
    case SnapshotData => g == UnknownFreshness || g == Stale
    case UnknownFreshness => g == Stale
    case Stale => false
  }

  /** By source type; within one type by freshness; within one freshness by confidence. */
  predicate Outranks(i: Item, j: Item) {
    || j.sourceType in Under(i.sourceType)
    || (i.sourceType == j.sourceType && Fresher(i.freshness, j.freshness))
    || (i.sourceType == j.sourceType && i.freshness == j.freshness && i.confidence > j.confidence)
  }

  /** Of two authoritative items one ranks at least as high unless the other outranks it. */
  lemma RankMeaning(i: Item, j: Item)
    requires i.sourceType != LlmReasoning && j.sourceType != LlmReasoning
    ensures RanksAtLeast(i, j) <==> !Outranks(j, i)
  {
    TypeRanks(i.sourceType, j.sourceType);
    TypeRanks(j.sourceType, i.sourceType);
    FreshnessRanks(i.freshness, j.freshness);
    FreshnessRanks(j.freshness, i.freshness);
  }

  lemma TypeRanks(s: SourceType, t: SourceType)
    requires s != LlmReasoning && t != LlmReasoning
    ensures t in Under(s) <==> SourceAuthority.AuthorityRank(s) > SourceAuthority.AuthorityRank(t)
    ensures s == t <==> SourceAuthority.AuthorityRank(s) == SourceAuthority.AuthorityRank(t)
  {
  }

  lemma FreshnessRanks(f: Freshness, g: Freshness)
    ensures Fresher(f, g) <==> FreshnessRank(f) > FreshnessRank(g)
    ensures f == g <==> FreshnessRank(f) == FreshnessRank(g)
  {
  }

  // ----- selection -----

  ghost predicate AnyEvidence(items: seq<Item>) {
    exists i :: 0 <= i < |items| && items[i].sourceType != LlmReasoning
  }

  lemma AnyEvidenceIff(items: seq<Item>)
    ensures AnyEvidence(items) <==> Filter(IsAuthoritative, items) != []
    ensures AnyEvidence(items) <==> exists i :: i in items && IsAuthoritative(i)
  {
    FilterEmpty(IsAuthoritative, items);
    if i :| i in items && IsAuthoritative(i) {
      var k :| 0 <= k < |items| && items[k] == i;
      assert items[k].sourceType != LlmReasoning;
    }
  }

  /** The item at `k` is evidence, nothing outranks it, and it outranks all evidence before it. */
  ghost predicate BestAt(items: seq<Item>, k: nat) {
    && k < |items| && items[k].sourceType != LlmReasoning
    && (forall j :: 0 <= j < |items| && items[j].sourceType != LlmReasoning ==> !Outranks(items[j], items[k]))
    && forall j :: 0 <= j < k && items[j].sourceType != LlmReasoning ==> Outranks(items[k], items[j])
  }

  /** The first element of the class it belongs to comes first in the sorted list. */
  lemma FirstOfClass(items: seq<Item>, all: seq<Item>) returns (k: nat)
    requires all != [] && all[0].sourceType != LlmReasoning
    requires SameClasses(RanksAtLeast, all, Filter(IsAuthoritative, items))
    ensures k < |items| && items[k] == all[0]
    ensures forall j :: 0 <= j < k && items[j].sourceType != LlmReasoning ==> !Ties(RanksAtLeast, all[0])(items[j])
  {
    var c := all[0];
    var tied := (i: Item) => IsAuthoritative(i) && Ties(RanksAtLeast, c)(i);
    FilterBoth(IsAuthoritative, Ties(RanksAtLeast, c), tied, items);
    assert Filter(Ties(RanksAtLeast, c), all) == Filter(Ties(RanksAtLeast, c), Filter(IsAuthoritative, items));
    assert RanksAtLeast(c, c);
    assert Filter(Ties(RanksAtLeast, c), all)[0] == c;
    var at := FilterPicks(tied, items);
    PicksFirst(tied, items, at, Filter(tied, items));
    assert at[0] in at;
    k := at[0];
    forall j | 0 <= j < k && IsAuthoritative(items[j]) ensures !Ties(RanksAtLeast, c)(items[j]) {
      assert tied(items[j]) ==> j in at;
    }
  }

  /**
    The preferred item is the best of the evidence: none outranks it, and it is the first
    of those that tie.
   */
  lemma PreferredIsFirstBest(items: seq<Item>, strategy: Strategy)
    requires AnyEvidence(items)
    ensures SelectPreferred(items, strategy).preferred.Some?
    ensures exists k: nat :: BestAt(items, k) && SelectPreferred(items, strategy).preferred.value == items[k]
  {
    var d := SelectPreferred(items, strategy);
    AnyEvidenceIff(items);
    SelectionPartitions(items, strategy);
    var all := Arranged(d);
    ArrangedMembers(items, strategy);
    var k := FirstOfClass(items, all);
    forall j | 0 <= j < |items| && items[j].sourceType != LlmReasoning
      ensures !Outranks(items[j], items[k]) && (j < k ==> Outranks(items[k], items[j]))
    {
      FirstIsBest(all, items[j]);
      RankMeaning(items[k], items[j]);
      RankMeaning(items[j], items[k]);
    }
    assert BestAt(items, k);
  }

  lemma FirstIsBest(all: seq<Item>, i: Item)
    requires Descending(RanksAtLeast, all) && i in all
    ensures RanksAtLeast(all[0], i)
  {
    var a :| 0 <= a < |all| && all[a] == i;
    if a > 0 {
      assert RanksAtLeast(all[0], all[a]);
    } else {
      assert RanksAtLeast(i, i);
    }
  }

  /** Preferred and rejected together are the evidence, with multiplicity, and nothing else. */
  lemma ArrangedMembers(items: seq<Item>, strategy: Strategy)
    requires AnyEvidence(items)
    ensures var all := Arranged(SelectPreferred(items, strategy));
      && (forall i: Item :: multiset(all)[i] == if i.sourceType != LlmReasoning then multiset(items)[i] else 0)
      && forall i :: i in all <==> i in items && i.sourceType != LlmReasoning
  {
    AnyEvidenceIff(items);
    SelectionPartitions(items, strategy);
    var all := Arranged(SelectPreferred(items, strategy));
    forall i: Item ensures multiset(all)[i] == if i.sourceType != LlmReasoning then multiset(items)[i] else 0 {
      FilterCount(IsAuthoritative, items, i);
    }
    forall i ensures i in all <==> i in items && i.sourceType != LlmReasoning {
      assert i in all <==> multiset(all)[i] > 0;
      assert i in items <==> multiset(items)[i] > 0;
    }
  }

  /** No rejected item outranks one listed before it, the preferred one included. */
  lemma SelectionOrdered(items: seq<Item>, strategy: Strategy)
    requires AnyEvidence(items)
    ensures var all := Arranged(SelectPreferred(items, strategy));
      forall a, b :: 0 <= a < b < |all| ==> !Outranks(all[b], all[a])
  {
    AnyEvidenceIff(items);
    SelectionPartitions(items, strategy);
    ArrangedMembers(items, strategy);
    var all := Arranged(SelectPreferred(items, strategy));
    forall a, b | 0 <= a < b < |all| ensures !Outranks(all[b], all[a]) {
      assert all[a] in all && all[b] in all;
      RankMeaning(all[a], all[b]);
    }
  }

  // ----- contradictions -----

  /** Two items under one key, up to spacing and case, with different things to say. */
  predicate SaysOtherwise(i: Item, j: Item) {
    && i.factKey.Some? && j.factKey.Some? && Words(i.factKey.value) != []
    && SameWords(i.factKey.value, j.factKey.value)
    && Words(i.content) != [] && Words(j.content) != [] && !SameWords(i.content, j.content)
  }

  lemma ContradictIff(i: Item, j: Item)
    ensures Contradict(i, j) <==> SaysOtherwise(i, j)
  {
    if i.factKey.Some? && j.factKey.Some? {
      NormalValueEmpty(i.factKey.value);
      NormalValueEmpty(j.factKey.value);
      SameNormalValueIff(i.factKey.value, j.factKey.value);
    }
    NormalValueEmpty(i.content);
    NormalValueEmpty(j.content);
    SameNormalValueIff(i.content, j.content);
  }

  ghost predicate EvidenceConflicts(items: seq<Item>) {
    exists i, j :: i in items && j in items && i.sourceType != LlmReasoning && j.sourceType != LlmReasoning &&
                   SaysOtherwise(i, j)
  }

  /** Everything else a selection says. */
  lemma SelectionFields(items: seq<Item>, strategy: Strategy)
    ensures var d := SelectPreferred(items, strategy);
      if !AnyEvidence(items) then
        d == AuthorityDecision(None, items, NoAuthoritative, items != [], items != [], strategy)
      else
        && d.preferred.Some? && d.strategy == strategy
        && (d.conflictDetected <==> EvidenceConflicts(items))
        && (d.requiresHumanReview <==> EvidenceConflicts(items) && strategy == RequireHumanReview)
        && d.reason == if d.requiresHumanReview then ConflictRequiresReview else SelectedHighest
  {
    AnyEvidenceIff(items);
    if AnyEvidence(items) {
      ConflictFlag(items, strategy);
      forall i, j ensures Contradict(i, j) <==> SaysOtherwise(i, j) {
        ContradictIff(i, j);
      }
    }
  }

  // ----- the decision -----

  /** What it takes to meet a need. */
  predicate Meets(item: Item, need: Need) {
    && item.sourceType in need.sourceTypes && item.sourceType != LlmReasoning
    && (need.requiresLive ==> item.freshness == LiveData || item.freshness == Current)
  }

  function Lacks(items: seq<Item>): Need -> bool {
    (need: Need) => !exists k :: 0 <= k < |items| && Meets(items[k], need)
  }

  lemma UnmetIs(items: seq<Item>, need: Need)
    ensures Unmet(items)(need) == Lacks(items)(need)
  {
    if i :| i in items && Satisfies(need, i) {
      var k :| 0 <= k < |items| && items[k] == i;
      assert Meets(items[k], need);
    }
    if k :| 0 <= k < |items| && Meets(items[k], need) {
      assert items[k] in items && Satisfies(need, items[k]);
    }
  }

  function ToClarify(): Need -> bool {
    (need: Need) => need.kind == NeedClarification
  }

  lemma ClarificationsSelect(needs: seq<Need>)
    ensures Selects(ToClarify(), needs, Filter(IsClarification, needs))
  {
    FilterSame(IsClarification, ToClarify(), needs);
    FilterSelects(ToClarify(), needs);
  }

  lemma MissingSelect(needs: seq<Need>, items: seq<Item>)
    ensures Selects(Lacks(items), needs, Filter(Unmet(items), needs))
  {
    forall need ensures Unmet(items)(need) == Lacks(items)(need) {
      UnmetIs(items, need);
    }
    FilterSame(Unmet(items), Lacks(items), needs);
    FilterSelects(Lacks(items), needs);
  }

  ghost predicate AnyNeed(p: Need -> bool, needs: seq<Need>) {
    exists n :: 0 <= n < |needs| && p(needs[n])
  }

  /** The slots to ask for: every missing slot of every need, each once. */
  ghost predicate SlotsOf(slots: seq<string>, needs: seq<Need>) {
    NoRepeats(slots) && forall x :: x in slots <==> exists need :: need in needs && x in need.missingSlots
  }

  /** With a clarification outstanding the decision lists those needs and asks for every missing slot. */
  lemma ClarificationExact(plan: Plan, items: seq<Item>)
    ensures Decide(plan, items).status == NeedsClarification <==> AnyNeed(ToClarify(), plan.needs)
    ensures AnyNeed(ToClarify(), plan.needs) ==>
              var d := Decide(plan, items);
              && d.authority == None && Selects(ToClarify(), plan.needs, d.missingNeeds)
              && SlotsOf(d.missingSlots, plan.needs)
              && d.reason == if d.missingSlots != [] then MissingSlotsReason else QueryRequiresClarification
  {
    ClarificationsSelect(plan.needs);
    SelectionSize(ToClarify(), plan.needs, Filter(IsClarification, plan.needs));
    MissingSlotsExact(plan.needs);
  }

  /** A need that nothing meets and that only live evidence could. */
  ghost predicate LacksLive(needs: seq<Need>, items: seq<Item>) {
    exists n :: 0 <= n < |needs| && Lacks(items)(needs[n]) && needs[n].requiresLive
  }

  lemma NothingToClarify(plan: Plan, items: seq<Item>)
    requires !AnyNeed(ToClarify(), plan.needs)
    ensures Decide(plan, items) == DecideOnEvidence(plan, items)
  {
    ClarificationsSelect(plan.needs);
    SelectionSize(ToClarify(), plan.needs, Filter(IsClarification, plan.needs));
  }

  /** With LLM reasoning only there is no answer, whatever the needs. */
  lemma NoEvidenceExact(plan: Plan, items: seq<Item>)
    requires !AnyNeed(ToClarify(), plan.needs) && items != [] && !AnyEvidence(items)
    ensures Decide(plan, items) ==
            PlanDecision(RequiresReview, Some(SelectPreferred(items, plan.strategy)), [], [], NoAuthoritativeEvidence)
  {
    NothingToClarify(plan, items);
    AnyEvidenceIff(items);
  }

  /** The unmet needs are listed in order; a person is asked exactly when one of them needs live evidence. */
  lemma UnmetExact(plan: Plan, items: seq<Item>)
    requires !AnyNeed(ToClarify(), plan.needs) && (items == [] || AnyEvidence(items))
    requires AnyNeed(Lacks(items), plan.needs)
    ensures var d := Decide(plan, items);
      && d.authority == None && d.missingSlots == [] && Selects(Lacks(items), plan.needs, d.missingNeeds)
      && d.status == (if LacksLive(plan.needs, items) then RequiresReview else NeedsEvidence)
      && d.reason == (if LacksLive(plan.needs, items) then MissingLiveEvidence else MissingEvidence)
  {
    NothingToClarify(plan, items);
    AnyEvidenceIff(items);
    MissingSelect(plan.needs, items);
    SelectionSize(Lacks(items), plan.needs, Filter(Unmet(items), plan.needs));
    LiveAmongMissing(plan.needs, items);
  }

  lemma LiveAmongMissing(needs: seq<Need>, items: seq<Item>)
    ensures (exists need :: need in Filter(Unmet(items), needs) && need.requiresLive) <==> LacksLive(needs, items)
  {
    var missing := Filter(Unmet(items), needs);
    forall need ensures need in missing <==> need in needs && Lacks(items)(need) {
      FilterMember(Unmet(items), needs, need);
      UnmetIs(items, need);
    }
    if need :| need in missing && need.requiresLive {
      var n :| 0 <= n < |needs| && needs[n] == need;
    }
  }

  // ----- with every need met -----

  predicate MeetsSome(item: Item, needs: seq<Need>) {
    exists n :: 0 <= n < |needs| && Meets(item, needs[n])
  }

  lemma UsefulIff(item: Item, needs: seq<Need>)
    ensures Useful(needs, item) <==> MeetsSome(item, needs)
  {
    if need :| need in needs && Satisfies(need, item) {
      var n :| 0 <= n < |needs| && needs[n] == need;
      assert Meets(item, needs[n]);
    }
    if n :| 0 <= n < |needs| && Meets(item, needs[n]) {
      assert needs[n] in needs && Satisfies(needs[n], item);
    }
  }

  /** The item meets a need, and nothing that meets one outranks it. */
  ghost predicate BestAnswer(best: Item, needs: seq<Need>, items: seq<Item>) {
    && best in items && MeetsSome(best, needs)
    && forall i :: i in items && MeetsSome(i, needs) ==> !Outranks(i, best)
  }

  ghost predicate AnswersDiffer(needs: seq<Need>, items: seq<Item>) {
    exists i, j :: i in items && j in items && MeetsSome(i, needs) && MeetsSome(j, needs) && SaysOtherwise(i, j)
  }

  /**
    With every need met the decision rests on the best item that meets one, READY unless
    review of contradictions is asked for and two such items say different things.
   */
  lemma MetExact(plan: Plan, items: seq<Item>)
    requires !AnyNeed(ToClarify(), plan.needs) && !AnyNeed(Lacks(items), plan.needs) && plan.needs != []
    ensures var d := Decide(plan, items);
      && d.missingNeeds == [] && d.missingSlots == []
      && d.authority.Some? && d.authority.value.preferred.Some?
      && BestAnswer(d.authority.value.preferred.value, plan.needs, items)
      && var review := plan.strategy == RequireHumanReview && AnswersDiffer(plan.needs, items);
         && d.status == (if review then RequiresReview else Ready)
         && d.reason == (if review then AuthorityReviewReason else EvidenceReady)
  {
    NothingMissing(plan, items);
    MetDecision(plan, items);
    MetUseful(plan.needs, items);
    AuthorityReview(plan, items);
    AnswersDifferIff(plan.needs, items);
    PreferredIsBest(plan, items);
    BestIs(SelectPreferred(SatisfiedItems(plan.needs, items), plan.strategy).preferred.value, plan.needs, items);
    MetFields(plan, items);
  }

  lemma NothingMissing(plan: Plan, items: seq<Item>)
    requires !AnyNeed(ToClarify(), plan.needs) && !AnyNeed(Lacks(items), plan.needs)
    ensures AllMet(plan.needs, items) && forall need :: need in plan.needs ==> !IsClarification(need)
    ensures Filter(Unmet(items), plan.needs) == []
  {
    forall need | need in plan.needs ensures Met(need, items) && !IsClarification(need) {
      var n :| 0 <= n < |plan.needs| && plan.needs[n] == need;
      assert !Lacks(items)(plan.needs[n]) && !ToClarify()(plan.needs[n]);
      UnmetIs(items, need);
    }
    MissingIffUnmet(plan, items);
  }

  lemma AnswersDifferIff(needs: seq<Need>, items: seq<Item>)
    ensures UsefulConflict(needs, items) <==> AnswersDiffer(needs, items)
  {
    forall i ensures Useful(needs, i) <==> MeetsSome(i, needs) {
      UsefulIff(i, needs);
    }
    forall i, j ensures Contradict(i, j) <==> SaysOtherwise(i, j) {
      ContradictIff(i, j);
    }
  }

  lemma BestIs(best: Item, needs: seq<Need>, items: seq<Item>)
    requires best in items && Useful(needs, best)
    requires forall i :: i in items && Useful(needs, i) ==> RanksAtLeast(best, i)
    ensures BestAnswer(best, needs, items)
  {
    UsefulIff(best, needs);
    forall i | i in items && MeetsSome(i, needs) ensures !Outranks(i, best) {
      UsefulIff(i, needs);
      RankMeaning(best, i);
    }
  }

  lemma MetFields(plan: Plan, items: seq<Item>)
    requires !AnyNeed(ToClarify(), plan.needs) && Filter(Unmet(items), plan.needs) == []
    requires exists i :: i in items && IsAuthoritative(i)
    requires SelectPreferred(SatisfiedItems(plan.needs, items), plan.strategy).preferred.Some?
    ensures var d, a := Decide(plan, items), SelectPreferred(SatisfiedItems(plan.needs, items), plan.strategy);
      d == PlanDecision(if a.requiresHumanReview then RequiresReview else Ready, Some(a), [], [],
                        if a.requiresHumanReview then AuthorityReviewReason else EvidenceReady)
  {
    NothingToClarify(plan, items);
    FilterEmpty(IsAuthoritative, items);
  }

  /** A plan without needs never answers. */
  lemma NoNeeds(plan: Plan, items: seq<Item>)
    requires plan.needs == []
    ensures Decide(plan, items).status == RequiresReview && Decide(plan, items).reason == NoAuthoritativeEvidence
  {
    StatusCorrect(plan, items);
    SatisfiedAuthoritative(plan.needs, items);
    if SatisfiedItems(plan.needs, items) != [] {
      SatisfiedMember(plan.needs, items, SatisfiedItems(plan.needs, items)[0]);
    }
    assert Filter(Unmet(items), plan.needs) == [] && Filter(IsClarification, plan.needs) == [];
  }

  // ----- price queries -----

  /** An availability answer rests on the CRM whenever the CRM has fresh evidence, whatever the catalog says. */
  lemma AvailabilityPrefersCrm(r: QueryResolution, strategy: Strategy, items: seq<Item>)
    requires r.intent == AvailabilityQuery && Decide(PlanFor(r, strategy), items).status == Ready
    requires exists i :: i in items && i.sourceType == CrmOperational &&
                         (i.freshness == LiveData || i.freshness == Current)
    ensures Decide(PlanFor(r, strategy), items).authority.value.preferred.value.sourceType == CrmOperational
  {
    PriceAnswerGrounded(r, strategy, items);
    var best := Decide(PlanFor(r, strategy), items).authority.value.preferred.value;
    var i :| i in items && i.sourceType == CrmOperational && (i.freshness == LiveData || i.freshness == Current);
    assert Answers(r, i);
    RankMeaning(best, i);
  }

  /** A price query that is not clear is answered by asking for its slots, each once. */
  lemma PriceClarification(r: QueryResolution, strategy: Strategy, items: seq<Item>)
    ensures var d := Decide(PlanFor(r, strategy), items);
      && (d.status == NeedsClarification <==> r.missingSlots != [] || r.intent == DisambiguationRequired)
      && (d.status == NeedsClarification ==>
            NoRepeats(d.missingSlots) && forall x :: x in d.missingSlots <==> x in r.missingSlots)
  {
    var plan := PlanFor(r, strategy);
    ClarificationExact(plan, items);
    PlanToClarify(r, strategy);
    SlotsOfOne(Decide(plan, items).missingSlots, plan.needs);
  }

  lemma PlanToClarify(r: QueryResolution, strategy: Strategy)
    ensures var needs := PlanFor(r, strategy).needs;
      && |needs| == 1
      && (AnyNeed(ToClarify(), needs) <==> r.missingSlots != [] || r.intent == DisambiguationRequired)
      && (AnyNeed(ToClarify(), needs) ==> needs[0].missingSlots == r.missingSlots)
  {
    var needs := PlanFor(r, strategy).needs;
    assert AnyNeed(ToClarify(), needs) <==> ToClarify()(needs[0]);
  }

  lemma SlotsOfOne(slots: seq<string>, needs: seq<Need>)
    requires |needs| == 1
    ensures SlotsOf(slots, needs) ==> NoRepeats(slots) && forall x :: x in slots <==> x in needs[0].missingSlots
  {
    assert needs[0] in needs && forall need :: need in needs ==> need == needs[0];
  }
}
