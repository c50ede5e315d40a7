/** Deciding from the collected evidence whether an answer may be given. */
module EvidencePlan {
  import opened Seqs
  import opened StableSort
  import opened SourceAuthority
  import opened Text

  datatype NeedKind = NeedKnowledge | NeedPriceList | NeedLiveOperational | NeedClarification

  datatype Need = Need(kind: NeedKind, sourceTypes: seq<SourceType>, requiresLive: bool, missingSlots: seq<string>)

  datatype Plan = Plan(needs: seq<Need>, strategy: Strategy)

  datatype Status = Ready | NeedsEvidence | NeedsClarification | RequiresReview

  datatype Reason =
    | MissingSlotsReason | QueryRequiresClarification | NoAuthoritativeEvidence
    | MissingEvidence | MissingLiveEvidence | AuthorityReviewReason | EvidenceReady

  datatype PlanDecision = PlanDecision(
    status: Status, authority: Option<AuthorityDecision>, missingNeeds: seq<Need>, missingSlots: seq<string>,
    reason: Reason)

  /** `is_satisfied_by` */
  predicate Satisfies(need: Need, item: Item) {
    && item.sourceType in need.sourceTypes
    && IsAuthoritative(item)
    && (need.requiresLive ==> item.freshness == LiveData || item.freshness == Current)
  }

  predicate Useful(needs: seq<Need>, item: Item) {
    exists need :: need in needs && Satisfies(need, item)
  }

  /** The items that meet some need, each once, in order. */
  function SatisfiedItems(needs: seq<Need>, items: seq<Item>): seq<Item> {
    if items == [] then []
    else
      var init, last := SatisfiedItems(needs, items[..|items| - 1]), items[|items| - 1];
      if last in init || !Useful(needs, last) then init else init + [last]
  }

  /** `_satisfied_items` */
  method CollectSatisfied(needs: seq<Need>, items: seq<Item>) returns (result: seq<Item>)
    ensures result == SatisfiedItems(needs, items)
  {
    result := [];
    for n := 0 to |items|
      invariant result == SatisfiedItems(needs, items[..n])
    {
      assert items[..n + 1][..n] == items[..n];
      if items[n] in result {
        continue;
      }
      if Useful(needs, items[n]) {
        result := result + [items[n]];
      }
    }
    assert items[..|items|] == items;
  }

  predicate Met(need: Need, items: seq<Item>) {
    exists i :: i in items && Satisfies(need, i)
  }

  function Unmet(items: seq<Item>): Need -> bool {
    (need: Need) => !Met(need, items)
  }

  predicate IsClarification(need: Need) {
    need.kind == NeedClarification
  }

  /** Where `x` is first seen, `y` has not been. */
  ghost predicate SeenBefore(items: seq<Item>, x: Item, y: Item) {
    exists i :: 0 <= i < |items| && items[i] == x && y !in items[..i + 1]
  }

  lemma SeenBeforeMore(items: seq<Item>, x: Item, y: Item, last: Item)
    requires SeenBefore(items, x, y)
    ensures SeenBefore(items + [last], x, y)
  {
    var i :| 0 <= i < |items| && items[i] == x && y !in items[..i + 1];
    assert (items + [last])[..i + 1] == items[..i + 1] && (items + [last])[i] == x;
  }

  /** Every useful item is listed, each once, in the order in which they are first seen. */
  lemma {:induction false} SatisfiedExact(needs: seq<Need>, items: seq<Item>)
    ensures var r := SatisfiedItems(needs, items);
      && NoRepeats(r)
      && (forall i :: i in r <==> i in items && Useful(needs, i))
      && forall a, b :: 0 <= a < b < |r| ==> SeenBefore(items, r[a], r[b])
  {
    forall i ensures i in SatisfiedItems(needs, items) <==> i in items && Useful(needs, i) {
      SatisfiedMember(needs, items, i);
    }
    if items != [] {
      var init, last := items[..|items| - 1], items[|items| - 1];
      var before, r := SatisfiedItems(needs, init), SatisfiedItems(needs, items);
      assert items == init + [last];
      SatisfiedExact(needs, init);
      forall a, b | 0 <= a < b < |r| ensures SeenBefore(items, r[a], r[b]) {
        if b == |before| {
          assert r[a] in init;
          var i :| 0 <= i < |init| && init[i] == r[a];
          assert last !in items[..i + 1];
        } else {
          SeenBeforeMore(init, r[a], r[b], last);
        }
      }
    }
  }

  function AddSlots(slots: seq<string>, more: seq<string>): seq<string> {
    if more == [] then slots
    else
      var init, last := AddSlots(slots, more[..|more| - 1]), more[|more| - 1];
      if last in init then init else init + [last]
  }

  /** The missing slots of all needs, each once, in order. */
  function MissingSlots(needs: seq<Need>): seq<string> {
    if needs == [] then []
    else AddSlots(MissingSlots(needs[..|needs| - 1]), needs[|needs| - 1].missingSlots)
  }

  /** `missing_slots` */
  method CollectMissingSlots(needs: seq<Need>) returns (result: seq<string>)
    ensures result == MissingSlots(needs)
  {
    result := [];
    for n := 0 to |needs|
      invariant result == MissingSlots(needs[..n])
    {
      var before, slots := result, needs[n].missingSlots;
      for k := 0 to |slots|
        invariant result == AddSlots(before, slots[..k])
      {
        assert slots[..k + 1][..k] == slots[..k];
        if slots[k] !in result {
          result := result + [slots[k]];
        }
      }
      assert slots[..|slots|] == slots && needs[..n + 1][..n] == needs[..n];
    }
    assert needs[..|needs|] == needs;
  }

  lemma {:induction false} AddSlotsExact(slots: seq<string>, more: seq<string>)
    requires NoRepeats(slots)
    ensures NoRepeats(AddSlots(slots, more)) && slots <= AddSlots(slots, more)
    ensures forall x :: x in AddSlots(slots, more) <==> x in slots || x in more
  {
    if more != [] {
      var init, last := more[..|more| - 1], more[|more| - 1];
      assert more == init + [last];
      AddSlotsExact(slots, init);
    }
  }

  /** The clarification asks for every missing slot of every need, and for each once. */
  lemma {:induction false} MissingSlotsExact(needs: seq<Need>)
    ensures NoRepeats(MissingSlots(needs))
    ensures forall x :: x in MissingSlots(needs) <==> exists need :: need in needs && x in need.missingSlots
  {
    if needs != [] {
      var init, last := needs[..|needs| - 1], needs[|needs| - 1];
      assert needs == init + [last];
      MissingSlotsExact(init);
      AddSlotsExact(MissingSlots(init), last.missingSlots);
    }
  }

  /** `decide`, once no clarification is outstanding. */
  function DecideOnEvidence(plan: Plan, items: seq<Item>): PlanDecision {
    if items != [] && Filter(IsAuthoritative, items) == [] then
      PlanDecision(RequiresReview, Some(SelectPreferred(items, plan.strategy)), [], [], NoAuthoritativeEvidence)
    else
      var missing := Filter(Unmet(items), plan.needs);
      if missing != [] then
        if exists need :: need in missing && need.requiresLive
        then PlanDecision(RequiresReview, None, missing, [], MissingLiveEvidence)
        else PlanDecision(NeedsEvidence, None, missing, [], MissingEvidence)
      else DecideOnAuthority(SelectPreferred(SatisfiedItems(plan.needs, items), plan.strategy))
  }

  function DecideOnAuthority(d: AuthorityDecision): PlanDecision {
    if d.requiresHumanReview then PlanDecision(RequiresReview, Some(d), [], [], AuthorityReviewReason)
    else if d.preferred.None? then PlanDecision(RequiresReview, Some(d), [], [], NoAuthoritativeEvidence)
    else PlanDecision(Ready, Some(d), [], [], EvidenceReady)
  }

  /** `decide` */
  function Decide(plan: Plan, items: seq<Item>): PlanDecision {
    var clarifications := Filter(IsClarification, plan.needs);
    if clarifications != [] then
      var slots := MissingSlots(plan.needs);
      PlanDecision(NeedsClarification, None, clarifications, slots,
                   if slots != [] then MissingSlotsReason else QueryRequiresClarification)
    else DecideOnEvidence(plan, items)
  }

  // ----- what the steps look at -----

  lemma {:induction false} SatisfiedMember(needs: seq<Need>, items: seq<Item>, i: Item)
    ensures i in SatisfiedItems(needs, items) <==> i in items && Useful(needs, i)
  {
    if items != [] {
      var init, last := items[..|items| - 1], items[|items| - 1];
      assert items == init + [last];
      SatisfiedMember(needs, init, i);
    }
  }

  ghost predicate AllMet(needs: seq<Need>, items: seq<Item>) {
    forall need :: need in needs ==> Met(need, items)
  }

  /** Two useful items contradict each other. */
  ghost predicate UsefulConflict(needs: seq<Need>, items: seq<Item>) {
    exists i, j :: i in items && j in items && Useful(needs, i) && Useful(needs, j) && Contradict(i, j)
  }

  lemma MissingIffUnmet(plan: Plan, items: seq<Item>)
    ensures Filter(Unmet(items), plan.needs) == [] <==> AllMet(plan.needs, items)
  {
    FilterEmpty(Unmet(items), plan.needs);
  }

  lemma SatisfiedAuthoritative(needs: seq<Need>, items: seq<Item>)
    ensures Filter(IsAuthoritative, SatisfiedItems(needs, items)) == [] <==> SatisfiedItems(needs, items) == []
  {
    FilterEmpty(IsAuthoritative, SatisfiedItems(needs, items));
    if SatisfiedItems(needs, items) != [] {
      SatisfiedMember(needs, items, SatisfiedItems(needs, items)[0]);
    }
  }

  /** Selection among the satisfied items asks for review exactly on a contradiction under that strategy. */
  lemma AuthorityReview(plan: Plan, items: seq<Item>)
    requires exists i :: i in items && Useful(plan.needs, i)
    ensures var d := SelectPreferred(SatisfiedItems(plan.needs, items), plan.strategy);
      && d.preferred.Some?
      && (d.requiresHumanReview <==> plan.strategy == RequireHumanReview && UsefulConflict(plan.needs, items))
  {
    var satisfied := SatisfiedItems(plan.needs, items);
    forall i ensures i in satisfied <==> i in items && Useful(plan.needs, i) {
      SatisfiedMember(plan.needs, items, i);
    }
    var i :| i in items && Useful(plan.needs, i);
    assert i in satisfied && IsAuthoritative(i);
    SelectionPartitions(satisfied, plan.strategy);
    ConflictFlag(satisfied, plan.strategy);
  }

  // ----- the status, without order -----

  ghost predicate AnyAuthoritative(items: seq<Item>) {
    exists i :: i in items && IsAuthoritative(i)
  }

  ghost predicate LiveUnmet(needs: seq<Need>, items: seq<Item>) {
    exists need :: need in needs && !Met(need, items) && need.requiresLive
  }

  /** The status as a property of which items are there. */
  ghost function StatusOf(plan: Plan, items: seq<Item>): Status {
    if exists need :: need in plan.needs && IsClarification(need) then NeedsClarification
    else if items != [] && !AnyAuthoritative(items) then RequiresReview
    else if !AllMet(plan.needs, items) then if LiveUnmet(plan.needs, items) then RequiresReview else NeedsEvidence
    else if plan.needs == [] then RequiresReview
    else if plan.strategy == RequireHumanReview && UsefulConflict(plan.needs, items) then RequiresReview
    else Ready
  }

  lemma MissingStatus(plan: Plan, items: seq<Item>)
    ensures (exists need :: need in Filter(Unmet(items), plan.needs) && need.requiresLive)
            <==> LiveUnmet(plan.needs, items)
  {
    forall need ensures need in Filter(Unmet(items), plan.needs) <==> need in plan.needs && !Met(need, items) {
      FilterMember(Unmet(items), plan.needs, need);
    }
  }

  lemma MetStatus(plan: Plan, items: seq<Item>)
    requires AllMet(plan.needs, items)
    ensures DecideOnAuthority(SelectPreferred(SatisfiedItems(plan.needs, items), plan.strategy)).status
         == if plan.needs == [] then RequiresReview
            else if plan.strategy == RequireHumanReview && UsefulConflict(plan.needs, items) then RequiresReview
            else Ready
  {
    if plan.needs == [] {
      SatisfiedAuthoritative(plan.needs, items);
      if SatisfiedItems(plan.needs, items) != [] {
        SatisfiedMember(plan.needs, items, SatisfiedItems(plan.needs, items)[0]);
      }
    } else {
      assert Met(plan.needs[0], items);
      var i :| i in items && Satisfies(plan.needs[0], i);
      assert Useful(plan.needs, i);
      AuthorityReview(plan, items);
    }
  }

  lemma StatusCorrect(plan: Plan, items: seq<Item>)
    ensures Decide(plan, items).status == StatusOf(plan, items)
  {
    FilterEmpty(IsClarification, plan.needs);
    FilterEmpty(IsAuthoritative, items);
    MissingIffUnmet(plan, items);
    MissingStatus(plan, items);
    if AllMet(plan.needs, items) {
      MetStatus(plan, items);
    }
  }

  /** The order of the evidence never matters for the status. */
  lemma PermutationInvariant(plan: Plan, items: seq<Item>, permuted: seq<Item>)
    requires multiset(items) == multiset(permuted)
    ensures Decide(plan, items).status == Decide(plan, permuted).status
  {
    forall i ensures i in items <==> i in permuted {
      assert i in items <==> i in multiset(items);
    }
    SameMembersSameStatus(plan, items, permuted);
  }

  lemma SameMembersSameStatus(plan: Plan, items: seq<Item>, others: seq<Item>)
    requires forall i :: i in items <==> i in others
    ensures Decide(plan, items).status == Decide(plan, others).status
  {
    StatusCorrect(plan, items);
    StatusCorrect(plan, others);
    SameMembersSameSpec(plan, items, others);
  }

  lemma SameMembersSameSpec(plan: Plan, items: seq<Item>, others: seq<Item>)
    requires forall i :: i in items <==> i in others
    ensures StatusOf(plan, items) == StatusOf(plan, others)
  {
    SameMembersSameNeeds(plan.needs, items, others);
    assert items == [] <==> others == [] by {
      if items != [] { assert items[0] in others; }
      if others != [] { assert others[0] in items; }
    }
  }

  lemma {:induction false} SameMembersSameNeeds(needs: seq<Need>, items: seq<Item>, others: seq<Item>)
    requires forall i :: i in items <==> i in others
    ensures AllMet(needs, items) <==> AllMet(needs, others)
    ensures LiveUnmet(needs, items) <==> LiveUnmet(needs, others)
    ensures AnyAuthoritative(items) <==> AnyAuthoritative(others)
    ensures UsefulConflict(needs, items) <==> UsefulConflict(needs, others)
  {
  }

  // ----- what READY means -----

  lemma ReadyAuthority(plan: Plan, items: seq<Item>)
    requires Decide(plan, items).status == Ready
    ensures var d := Decide(plan, items);
      && d.authority == Some(SelectPreferred(SatisfiedItems(plan.needs, items), plan.strategy))
      && d.authority.value.preferred.Some?
    ensures AllMet(plan.needs, items)
  {
    MissingIffUnmet(plan, items);
  }

  /** The preferred item meets a need, and no item that meets one ranks higher. */
  lemma PreferredIsBest(plan: Plan, items: seq<Item>)
    requires SelectPreferred(SatisfiedItems(plan.needs, items), plan.strategy).preferred.Some?
    ensures var best := SelectPreferred(SatisfiedItems(plan.needs, items), plan.strategy).preferred.value;
      && best in items && Useful(plan.needs, best)
      && forall i :: i in items && Useful(plan.needs, i) ==> RanksAtLeast(best, i)
  {
    var satisfied := SatisfiedItems(plan.needs, items);
    SatisfiedAuthoritative(plan.needs, items);
    SelectionIsSorted(satisfied, plan.strategy);
    RankIsPreorder();
    var authoritative := Filter(IsAuthoritative, satisfied);
    var ordered := Sort(RanksAtLeast, authoritative);
    SortCorrect(RanksAtLeast, authoritative);
    forall i ensures i in ordered <==> i in items && Useful(plan.needs, i) {
      SortMember(RanksAtLeast, authoritative, i);
      FilterMember(IsAuthoritative, satisfied, i);
      SatisfiedMember(plan.needs, items, i);
    }
    forall i | i in items && Useful(plan.needs, i) ensures RanksAtLeast(ordered[0], i) {
      var k :| 0 <= k < |ordered| && ordered[k] == i;
      assert k == 0 || RanksAtLeast(ordered[0], ordered[k]);
    }
  }

  /**
    READY means: every need is met by an authoritative item, live or current where that
    is required, and the preferred item meets a need and ranks at least as high as every
    item that does.
   */
  lemma ReadyMeans(plan: Plan, items: seq<Item>)
    requires Decide(plan, items).status == Ready
    ensures AllMet(plan.needs, items)
    ensures var best := Decide(plan, items).authority.value.preferred.value;
      && best in items && IsAuthoritative(best) && Useful(plan.needs, best)
      && forall i :: i in items && Useful(plan.needs, i) ==> RanksAtLeast(best, i)
  {
    ReadyAuthority(plan, items);
    PreferredIsBest(plan, items);
  }

  // ----- more evidence -----

  lemma {:induction false} MetMonotone(needs: seq<Need>, items: seq<Item>, more: seq<Item>)
    requires AllMet(needs, items) && forall i :: i in items ==> i in more
    ensures AllMet(needs, more)
  {
  }

  lemma MetByAuthoritative(needs: seq<Need>, items: seq<Item>)
    requires AllMet(needs, items) && needs != []
    ensures exists i :: i in items && IsAuthoritative(i)
  {
    assert Met(needs[0], items);
  }

  lemma ReadyStatus(plan: Plan, items: seq<Item>)
    ensures StatusOf(plan, items) == Ready <==>
            && (forall need :: need in plan.needs ==> !IsClarification(need))
            && plan.needs != [] && AllMet(plan.needs, items)
            && !(plan.strategy == RequireHumanReview && UsefulConflict(plan.needs, items))
  {
    if plan.needs != [] && AllMet(plan.needs, items) {
      MetByAuthoritative(plan.needs, items);
    }
  }

  /**
    Adding evidence to a READY decision keeps it READY unless the strategy asks for review
    of contradictions and the useful items now contradict each other.
   */
  lemma MoreEvidence(plan: Plan, items: seq<Item>, more: seq<Item>)
    requires Decide(plan, items).status == Ready
    requires forall i :: i in items ==> i in more
    ensures Decide(plan, more).status == Ready <==>
            !(plan.strategy == RequireHumanReview && UsefulConflict(plan.needs, more))
  {
    StatusCorrect(plan, items);
    StatusCorrect(plan, more);
    ReadyStatus(plan, items);
    ReadyStatus(plan, more);
    MetMonotone(plan.needs, items, more);
  }

  /** Where all needs are met, READY or under review, the decision rests on the best useful item. */
  lemma MetDecision(plan: Plan, items: seq<Item>)
    requires plan.needs != [] && AllMet(plan.needs, items)
    requires forall need :: need in plan.needs ==> !IsClarification(need)
    ensures Decide(plan, items).authority == Some(SelectPreferred(SatisfiedItems(plan.needs, items), plan.strategy))
    ensures Decide(plan, items).authority.value.preferred.Some?
  {
    FilterEmpty(IsClarification, plan.needs);
    FilterEmpty(IsAuthoritative, items);
    MetByAuthoritative(plan.needs, items);
    MissingIffUnmet(plan, items);
    MetUseful(plan.needs, items);
    AuthorityReview(plan, items);
  }

  lemma MetUseful(needs: seq<Need>, items: seq<Item>)
    requires needs != [] && AllMet(needs, items)
    ensures exists i :: i in items && Useful(needs, i)
  {
    assert Met(needs[0], items);
    var i :| i in items && Satisfies(needs[0], i);
    assert Useful(needs, i);
  }

  /** And the preferred item never ranks lower than before, even when the decision turns into a review. */
  lemma MoreEvidenceRanksHigher(plan: Plan, items: seq<Item>, more: seq<Item>)
    requires Decide(plan, items).status == Ready
    requires forall i :: i in items ==> i in more
    ensures Decide(plan, more).authority.Some? && Decide(plan, more).authority.value.preferred.Some?
    ensures RanksAtLeast(Decide(plan, more).authority.value.preferred.value,
                         Decide(plan, items).authority.value.preferred.value)
  {
    ReadyMeans(plan, items);
    StatusCorrect(plan, items);
    ReadyStatus(plan, items);
    MetMonotone(plan.needs, items, more);
    MetDecision(plan, more);
    PreferredIsBest(plan, more);
  }

  // ----- LLM reasoning is no evidence -----

  function WithoutLlm(items: seq<Item>): seq<Item> {
    Filter(IsAuthoritative, items)
  }

  lemma WithoutLlmMember(items: seq<Item>, i: Item)
    ensures i in WithoutLlm(items) <==> i in items && IsAuthoritative(i)
  {
    FilterMember(IsAuthoritative, items, i);
  }

  lemma {:induction false} SatisfiedWithoutLlm(needs: seq<Need>, items: seq<Item>)
    ensures SatisfiedItems(needs, WithoutLlm(items)) == SatisfiedItems(needs, items)
  {
    if items != [] {
      var init, last := items[..|items| - 1], items[|items| - 1];
      assert items == init + [last];
      SatisfiedWithoutLlm(needs, init);
      FilterConcat(IsAuthoritative, init, [last]);
      if IsAuthoritative(last) {
        assert WithoutLlm(items) == WithoutLlm(init) + [last];
        assert WithoutLlm(items)[..|WithoutLlm(init)|] == WithoutLlm(init);
      } else {
        assert WithoutLlm(items) == WithoutLlm(init);
      }
    }
  }

  lemma UnmetWithoutLlm(needs: seq<Need>, items: seq<Item>)
    ensures Filter(Unmet(WithoutLlm(items)), needs) == Filter(Unmet(items), needs)
  {
    forall i ensures i in WithoutLlm(items) <==> i in items && IsAuthoritative(i) {
      WithoutLlmMember(items, i);
    }
    FilterSame(Unmet(WithoutLlm(items)), Unmet(items), needs);
  }

  /** With an authoritative item present, LLM reasoning changes nothing in the decision. */
  lemma LlmIrrelevant(plan: Plan, items: seq<Item>)
    requires exists i :: i in items && IsAuthoritative(i)
    ensures Decide(plan, WithoutLlm(items)) == Decide(plan, items)
  {
    var i :| i in items && IsAuthoritative(i);
    WithoutLlmMember(items, i);
    FilterMember(IsAuthoritative, items, i);
    FilterMember(IsAuthoritative, WithoutLlm(items), i);
    UnmetWithoutLlm(plan.needs, items);
    SatisfiedWithoutLlm(plan.needs, items);
  }

  /** On nothing but LLM reasoning the decision is not the one taken on no evidence. */
  lemma OnlyLlm(plan: Plan, items: seq<Item>)
    requires items != [] && forall i :: i in items ==> !IsAuthoritative(i)
    ensures WithoutLlm(items) == []
    ensures DecideOnEvidence(plan, items) != DecideOnEvidence(plan, [])
  {
    FilterEmpty(IsAuthoritative, items);
    assert SatisfiedItems(plan.needs, []) == [];
    assert DecideOnEvidence(plan, items).authority == Some(SelectPreferred(items, plan.strategy));
    assert SelectPreferred(items, plan.strategy).rejected == items;
  }

  /**
    Exactly when dropping LLM reasoning leaves the whole decision as it was: a
    clarification is outstanding, some item is authoritative, or there was none to drop.
   */
  lemma LlmIrrelevantIff(plan: Plan, items: seq<Item>)
    ensures Decide(plan, WithoutLlm(items)) == Decide(plan, items) <==>
            || (exists need :: need in plan.needs && IsClarification(need))
            || (exists i :: i in items && IsAuthoritative(i))
            || items == []
  {
    FilterEmpty(IsClarification, plan.needs);
    if exists i :: i in items && IsAuthoritative(i) {
      LlmIrrelevant(plan, items);
    } else if items != [] {
      OnlyLlm(plan, items);
    }
  }

  // ----- plans for price queries -----

  datatype Intent =
    | DirectLookup | VariantLookup | RangeLookup | Comparison | TotalCalculation | ConditionQuery
    | AvailabilityQuery | LiveCrmLookup | PersonalQuote | DisambiguationRequired | NotFoundIntent

  /** A price query with what it could be matched to. */
  datatype QueryResolution = QueryResolution(intent: Intent, missingSlots: seq<string>)

  predicate AsksForClarification(r: QueryResolution) {
    r.missingSlots != [] || r.intent == DisambiguationRequired
  }

  predicate RequiresLiveSource(intent: Intent) {
    intent == LiveCrmLookup || intent == PersonalQuote || intent == AvailabilityQuery
  }

  /** `for_price_query_resolution` */
  function PlanFor(r: QueryResolution, strategy: Strategy): Plan {
    if AsksForClarification(r) then Plan([Need(NeedClarification, [], false, r.missingSlots)], strategy)
    else if r.intent == AvailabilityQuery then
      Plan([Need(NeedLiveOperational, [CatalogOperational, CrmOperational], true, [])], strategy)
    else if RequiresLiveSource(r.intent) then
      Plan([Need(NeedLiveOperational, [CrmOperational], true, [])], strategy)
    else Plan([Need(NeedPriceList, [CompiledPriceList], false, [])], strategy)
  }

  /** Items an answer to the query may rest on. */
  predicate Answers(r: QueryResolution, i: Item) {
    var upToDate := i.freshness == LiveData || i.freshness == Current;
    match r.intent
    case AvailabilityQuery => upToDate && (i.sourceType == CrmOperational || i.sourceType == CatalogOperational)
    case LiveCrmLookup => upToDate && i.sourceType == CrmOperational
    case PersonalQuote => upToDate && i.sourceType == CrmOperational
    case _ => i.sourceType == CompiledPriceList
  }

  lemma {:induction false} AnswersIsUseful(r: QueryResolution, strategy: Strategy, i: Item)
    requires !AsksForClarification(r)
    ensures Satisfies(PlanFor(r, strategy).needs[0], i) <==> Answers(r, i)
    ensures Useful(PlanFor(r, strategy).needs, i) <==> Answers(r, i)
  {
  }

  ghost predicate AnswersConflict(r: QueryResolution, items: seq<Item>) {
    exists i, j :: i in items && j in items && Answers(r, i) && Answers(r, j) && Contradict(i, j)
  }

  lemma PlanMeets(r: QueryResolution, strategy: Strategy, items: seq<Item>)
    requires !AsksForClarification(r)
    ensures AllMet(PlanFor(r, strategy).needs, items) <==> exists i :: i in items && Answers(r, i)
    ensures UsefulConflict(PlanFor(r, strategy).needs, items) <==> AnswersConflict(r, items)
  {
    var needs := PlanFor(r, strategy).needs;
    forall i ensures Useful(needs, i) <==> Answers(r, i) ensures Satisfies(needs[0], i) <==> Answers(r, i) {
      AnswersIsUseful(r, strategy, i);
    }
    assert |needs| == 1;
    assert AllMet(needs, items) <==> Met(needs[0], items) by {
      assert needs[0] in needs;
    }
    assert Met(needs[0], items) <==> exists i :: i in items && Answers(r, i);
  }

  /**
    An answer goes out exactly when the query is clear and there is such an item, unless
    review of contradictions is asked for and due.
   */
  lemma PriceAnswerReadyIff(r: QueryResolution, strategy: Strategy, items: seq<Item>)
    ensures Decide(PlanFor(r, strategy), items).status == Ready <==>
            && r.missingSlots == [] && r.intent != DisambiguationRequired
            && (exists i :: i in items && Answers(r, i))
            && !(strategy == RequireHumanReview && AnswersConflict(r, items))
  {
    if AsksForClarification(r) {
      UnclearNotReady(r, strategy, items);
    } else {
      ClearReadyIff(r, strategy, items);
    }
  }

  lemma UnclearNotReady(r: QueryResolution, strategy: Strategy, items: seq<Item>)
    requires AsksForClarification(r)
    ensures Decide(PlanFor(r, strategy), items).status != Ready
  {
    var plan := PlanFor(r, strategy);
    StatusCorrect(plan, items);
    ReadyStatus(plan, items);
    assert plan.needs[0] in plan.needs && IsClarification(plan.needs[0]);
  }

  lemma ClearReadyIff(r: QueryResolution, strategy: Strategy, items: seq<Item>)
    requires !AsksForClarification(r)
    ensures Decide(PlanFor(r, strategy), items).status == Ready <==>
            && (exists i :: i in items && Answers(r, i))
            && !(strategy == RequireHumanReview && AnswersConflict(r, items))
  {
    StatusCorrect(PlanFor(r, strategy), items);
    ReadyStatus(PlanFor(r, strategy), items);
    PlanMeets(r, strategy, items);
    ClearPlan(r, strategy);
  }

  /**
    An answer to a price query goes out only without open questions, and rests on the
    best matching item: fresh operational data where the intent is about the present,
    the compiled price list otherwise.
   */
  lemma PriceAnswerGrounded(r: QueryResolution, strategy: Strategy, items: seq<Item>)
    requires Decide(PlanFor(r, strategy), items).status == Ready
    ensures r.missingSlots == [] && r.intent != DisambiguationRequired
    ensures var best := Decide(PlanFor(r, strategy), items).authority.value.preferred.value;
      && best in items && Answers(r, best)
      && forall i :: i in items && Answers(r, i) ==> RanksAtLeast(best, i)
  {
    var plan := PlanFor(r, strategy);
    PriceAnswerReadyIff(r, strategy, items);
    forall i ensures Useful(plan.needs, i) <==> Answers(r, i) {
      AnswersIsUseful(r, strategy, i);
    }
    ReadyMeans(plan, items);
  }

  /** `items` give an answer that the added evidence in `more` takes back. */
  ghost predicate Blocks(plan: Plan, items: seq<Item>, more: seq<Item>) {
    && Decide(plan, items).status == Ready && Decide(plan, more).status == RequiresReview
    && forall i :: i in items ==> i in more
  }

  /**
    Where review is asked for, added evidence can block an answer: of two contradicting
    items that could each answer a clear query, one alone is READY and both are not.
   */
  lemma {:induction false} ContradictionBlocks(r: QueryResolution, first: Item, second: Item)
    requires !AsksForClarification(r) && Answers(r, first) && Answers(r, second) && Contradict(first, second)
    ensures Blocks(PlanFor(r, RequireHumanReview), [first], [first, second])
  {
    var both := [first, second];
    assert first in both && second in both;
    AloneReady(r, first);
    ConflictReviewed(r, both);
  }

  lemma ConflictReviewed(r: QueryResolution, items: seq<Item>)
    requires !AsksForClarification(r) && AnswersConflict(r, items)
    ensures Decide(PlanFor(r, RequireHumanReview), items).status == RequiresReview
  {
    PlanMeets(r, RequireHumanReview, items);
    ClearPlan(r, RequireHumanReview);
    var i, j :| i in items && j in items && Answers(r, i) && Answers(r, j) && Contradict(i, j);
    assert AllMet(PlanFor(r, RequireHumanReview).needs, items);
    ReviewDue(PlanFor(r, RequireHumanReview), items);
  }

  lemma AloneReady(r: QueryResolution, item: Item)
    requires !AsksForClarification(r) && Answers(r, item)
    ensures Decide(PlanFor(r, RequireHumanReview), [item]).status == Ready
  {
    PriceAnswerReadyIff(r, RequireHumanReview, [item]);
    assert item in [item];
  }

  lemma ClearPlan(r: QueryResolution, strategy: Strategy)
    requires !AsksForClarification(r)
    ensures var plan := PlanFor(r, strategy);
      plan.strategy == strategy && plan.needs != [] && forall need :: need in plan.needs ==> !IsClarification(need)
  {
    var needs := PlanFor(r, strategy).needs;
    assert needs == [needs[0]];
  }

  lemma ReviewDue(plan: Plan, items: seq<Item>)
    requires AllMet(plan.needs, items) && plan.needs != []
    requires forall need :: need in plan.needs ==> !IsClarification(need)
    requires plan.strategy == RequireHumanReview && UsefulConflict(plan.needs, items)
    ensures Decide(plan, items).status == RequiresReview
  {
    StatusCorrect(plan, items);
  }

  /** One price, stated as a single letter under a single-letter key. */
  function Price(key: char, content: char): Item {
    Item(CompiledPriceList, [content], "", None, Some([key]), Current, 1.0, "")
  }

  lemma PricesContradict(key: char, c: char, d: char)
    requires IsLetter(key) && IsLetter(c) && IsLetter(d) && LowerChar(c) != LowerChar(d)
    ensures Contradict(Price(key, c), Price(key, d))
  {
    NormalizeWord([key]);
    NormalizeWord([c]);
    NormalizeWord([d]);
    assert Lower([c])[0] != Lower([d])[0] && Lower([key]) != "" && Lower([c]) != "" && Lower([d]) != "";
  }

  /** Such items exist: two entries of the price list for one key. */
  lemma MoreEvidenceCanBlock()
    ensures exists plan, items, more :: Blocks(plan, items, more)
  {
    PricesBlock('k', '1', '2');
  }

  lemma PricesBlock(key: char, c: char, d: char)
    requires IsLetter(key) && IsLetter(c) && IsLetter(d) && LowerChar(c) != LowerChar(d)
    ensures Blocks(PlanFor(QueryResolution(DirectLookup, []), RequireHumanReview),
                   [Price(key, c)], [Price(key, c), Price(key, d)])
  {
    PricesContradict(key, c, d);
    ContradictionBlocks(QueryResolution(DirectLookup, []), Price(key, c), Price(key, d));
  }
}
