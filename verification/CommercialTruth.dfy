/**
  Disagreements between sources about the price of one thing: finding them by grouping,
  and settling them by policy.
 */
module CommercialTruth {
  import opened Text
  import opened Seqs
  import opened PriceKnowledge

  datatype SourceKind =
    | LiveCrm | LiveCatalog | LiveBilling | LiveStock
    | StructuredPriceList | CommercialOffer
    | Faq | Document
    | UnknownSource

  datatype Authority = Live | Primary | Supporting | UnknownAuthority

  /** `observedAt` is a point in time. */
  datatype Source = Source(id: string, kind: SourceKind, authority: Option<Authority>, observedAt: Option<int>)

  datatype Policy = ManualReview | HigherAuthorityWins | NewerSourceWins

  function DefaultAuthority(kind: SourceKind): Authority {
    match kind
    case LiveCrm | LiveCatalog | LiveBilling | LiveStock => Live
    case StructuredPriceList | CommercialOffer => Primary
    case Faq | Document => Supporting
    case UnknownSource => UnknownAuthority
  }

  function AuthorityRank(source: Source): int {
    var authority := if source.authority.Some? then source.authority.value else DefaultAuthority(source.kind);
    match authority
    case Live => 300
    case Primary => 200
    case Supporting => 100
    case UnknownAuthority => 0
  }

  // ----- identity and value of a fact -----

  /** What a fact is about; the sorted tuple of variant items is their set. */
  datatype Identity = Identity(projectId: string, item: string, unit: string, variant: set<(string, string)>)

  /** What a fact says; the sorted tuple of conditions is their multiset. */
  datatype Signature = Signature(
    kind: PriceValueKind, amount: Option<Money>, range: Option<PriceRange>, priceText: string,
    conditions: multiset<string>)

  function IdentityOf(f: PriceFact): Identity {
    Identity(f.projectId, NormalizeValue(f.itemName), NormalizeValue(f.unit), set e | e in NormalizedDict(f.variant))
  }

  function MoneySignature(m: Money): Money {
    Money(m.amount, Upper(Strip(m.currency)))
  }

  function Stated(): string -> bool {
    (text: string) => text != ""
  }

  function SignatureOf(f: PriceFact): Signature {
    Signature(
      f.valueKind,
      if f.amount.Some? then Some(MoneySignature(f.amount.value)) else None,
      if f.range.Some?
      then Some(PriceRange(MoneySignature(f.range.value.min), MoneySignature(f.range.value.max)))
      else None,
      NormalizeValue(f.priceText),
      multiset(Filter(Stated(), Map(NormalizeValue, f.conditions))))
  }

  /** A fact with its source; identity and signature are fixed when it is made. */
  datatype Snapshot = Snapshot(fact: PriceFact, source: Source, identity: Identity, signature: Signature)

  function MakeSnapshot(f: PriceFact, source: Source): Snapshot {
    Snapshot(f, source, IdentityOf(f), SignatureOf(f))
  }

  ghost predicate Made(snapshots: seq<Snapshot>) {
    forall s :: s in snapshots ==> s == MakeSnapshot(s.fact, s.source)
  }

  // ----- conflicts -----

  datatype Group = Group(identity: Identity, snapshots: seq<Snapshot>)

  /** The pairwise specification: two snapshots about `id` say different things. */
  ghost predicate Conflicted(snapshots: seq<Snapshot>, id: Identity) {
    exists s, t :: Disagree(snapshots, id, s, t)
  }

  ghost predicate Disagree(snapshots: seq<Snapshot>, id: Identity, s: Snapshot, t: Snapshot) {
    s in snapshots && t in snapshots && s.identity == id == t.identity && s.signature != t.signature
  }

  function About(id: Identity): Snapshot -> bool {
    (s: Snapshot) => s.identity == id
  }

  function GroupOf(snapshots: seq<Snapshot>, id: Identity): seq<Snapshot> {
    Filter(About(id), snapshots)
  }

  /** The identities in order of first appearance: the keys of the grouping dictionary. */
  function Identities(snapshots: seq<Snapshot>): (ids: seq<Identity>)
    ensures forall id :: id in ids <==> exists s :: s in snapshots && s.identity == id
    ensures NoRepeats(ids)
  {
    if snapshots == [] then []
    else
      var init, last := snapshots[..|snapshots| - 1], snapshots[|snapshots| - 1];
      assert snapshots == init + [last];
      var ids := Identities(init);
      if last.identity in ids then ids else ids + [last.identity]
  }

  function SignaturesOf(snapshots: seq<Snapshot>): set<Signature> {
    set s | s in snapshots :: s.signature
  }

  function ConflictsAmong(snapshots: seq<Snapshot>, ids: seq<Identity>): seq<Group> {
    if ids == [] then []
    else
      var rest := ConflictsAmong(snapshots, ids[..|ids| - 1]);
      var id := ids[|ids| - 1];
      var group := GroupOf(snapshots, id);
      if |SignaturesOf(group)| > 1 then rest + [Group(id, group)] else rest
  }

  function ConflictsOf(snapshots: seq<Snapshot>): seq<Group> {
    ConflictsAmong(snapshots, Identities(snapshots))
  }

  lemma GroupOfSnoc(snapshots: seq<Snapshot>, s: Snapshot, id: Identity)
    ensures GroupOf(snapshots + [s], id) ==
            if s.identity == id then GroupOf(snapshots, id) + [s] else GroupOf(snapshots, id)
  {
    FilterConcat(About(id), snapshots, [s]);
  }

  /** The dictionary holds, per identity seen, its snapshots in order. */
  ghost predicate Groups(grouped: map<Identity, seq<Snapshot>>, snapshots: seq<Snapshot>) {
    && (forall id :: id in grouped <==> id in Identities(snapshots))
    && forall id :: id in grouped ==> grouped[id] == GroupOf(snapshots, id)
  }

  function GroupSoFar(grouped: map<Identity, seq<Snapshot>>, id: Identity): seq<Snapshot> {
    if id in grouped then grouped[id] else []
  }

  lemma {:induction false} IdentitiesSnoc(snapshots: seq<Snapshot>, s: Snapshot)
    ensures Identities(snapshots + [s]) ==
            Identities(snapshots) + if s.identity in Identities(snapshots) then [] else [s.identity]
  {
  }

  /** One more snapshot goes to the end of its group, a new one if need be. */
  lemma GroupsSnoc(grouped: map<Identity, seq<Snapshot>>, snapshots: seq<Snapshot>, s: Snapshot)
    requires Groups(grouped, snapshots)
    ensures Groups(grouped[s.identity := GroupSoFar(grouped, s.identity) + [s]], snapshots + [s])
  {
    var grouped' := grouped[s.identity := GroupSoFar(grouped, s.identity) + [s]];
    IdentitiesSnoc(snapshots, s);
    forall id | id in grouped' ensures grouped'[id] == GroupOf(snapshots + [s], id) {
      GroupOfSnoc(snapshots, s, id);
      if id !in grouped {
        NoGroup(snapshots, id);
      }
    }
  }

  ghost predicate GroupedUpTo(order: seq<Identity>, grouped: map<Identity, seq<Snapshot>>,
                              snapshots: seq<Snapshot>, n: nat)
    requires n <= |snapshots|
  {
    order == Identities(snapshots[..n]) && Groups(grouped, snapshots[..n])
  }

  lemma GroupedStep(order: seq<Identity>, grouped: map<Identity, seq<Snapshot>>, snapshots: seq<Snapshot>, n: nat)
    requires n < |snapshots| && GroupedUpTo(order, grouped, snapshots, n)
    ensures var id := snapshots[n].identity;
      GroupedUpTo(if id in grouped then order else order + [id],
                  grouped[id := GroupSoFar(grouped, id) + [snapshots[n]]], snapshots, n + 1)
  {
    IdentitiesSnoc(snapshots[..n], snapshots[n]);
    GroupsSnoc(grouped, snapshots[..n], snapshots[n]);
    assert snapshots[..n + 1] == snapshots[..n] + [snapshots[n]];
  }

  /** The first loop of `detect_commercial_fact_conflicts`: a dictionary in insertion order. */
  method GroupByIdentity(snapshots: seq<Snapshot>) returns (order: seq<Identity>, grouped: map<Identity, seq<Snapshot>>)
    ensures order == Identities(snapshots) && Groups(grouped, snapshots)
  {
    order, grouped := [], map[];
    for i := 0 to |snapshots|
      invariant GroupedUpTo(order, grouped, snapshots, i)
    {
      GroupedStep(order, grouped, snapshots, i);
      var id := snapshots[i].identity;
      order := if id in grouped then order else order + [id];
      grouped := grouped[id := GroupSoFar(grouped, id) + [snapshots[i]]];
    }
    assert snapshots[..|snapshots|] == snapshots;
  }

  /** `detect_commercial_fact_conflicts`: group by identity, keep the groups with several values. */
  method DetectConflicts(snapshots: seq<Snapshot>) returns (conflicts: seq<Group>)
    ensures conflicts == ConflictsOf(snapshots)
  {
    var order, grouped := GroupByIdentity(snapshots);
    conflicts := [];
    for k := 0 to |order|
      invariant conflicts == ConflictsAmong(snapshots, order[..k])
    {
      var group := grouped[order[k]];
      var signatures := set s: Snapshot | s in group :: s.signature;
      assert order[..k + 1][..k] == order[..k];
      if |signatures| > 1 {
        conflicts := conflicts + [Group(order[k], group)];
      }
    }
    assert order[..|order|] == order;
  }

  lemma NoGroup(snapshots: seq<Snapshot>, id: Identity)
    requires id !in Identities(snapshots)
    ensures GroupOf(snapshots, id) == []
  {
    if GroupOf(snapshots, id) != [] {
      FilterMember(About(id), snapshots, GroupOf(snapshots, id)[0]);
    }
  }

  lemma GroupMember(snapshots: seq<Snapshot>, id: Identity, s: Snapshot)
    ensures s in GroupOf(snapshots, id) <==> s in snapshots && s.identity == id
  {
    FilterMember(About(id), snapshots, s);
  }

  lemma SeveralSignatures(snapshots: seq<Snapshot>, id: Identity)
    ensures |SignaturesOf(GroupOf(snapshots, id))| > 1 <==> Conflicted(snapshots, id)
  {
    var group := GroupOf(snapshots, id);
    SeveralElements(SignaturesOf(group));
    if Conflicted(snapshots, id) {
      var s, t :| Disagree(snapshots, id, s, t);
      GroupMember(snapshots, id, s);
      GroupMember(snapshots, id, t);
      assert s.signature in SignaturesOf(group) && t.signature in SignaturesOf(group);
    }
    if |SignaturesOf(group)| > 1 {
      var x, y :| x in SignaturesOf(group) && y in SignaturesOf(group) && x != y;
      var s :| s in group && s.signature == x;
      var t :| t in group && t.signature == y;
      GroupMember(snapshots, id, s);
      GroupMember(snapshots, id, t);
      assert Disagree(snapshots, id, s, t);
    }
  }

  lemma {:induction false} ConflictsAmongSpec(snapshots: seq<Snapshot>, ids: seq<Identity>, g: Group)
    ensures g in ConflictsAmong(snapshots, ids) <==>
            g.identity in ids && Conflicted(snapshots, g.identity) && g.snapshots == GroupOf(snapshots, g.identity)
  {
    if ids != [] {
      var init, last := ids[..|ids| - 1], ids[|ids| - 1];
      ConflictsAmongSpec(snapshots, init, g);
      SeveralSignatures(snapshots, last);
      assert g.identity in ids <==> g.identity in init || g.identity == last;
    }
  }

  /**
    Grouping refines the pairwise specification: an identity is reported exactly when two
    of its snapshots differ, and its group is all of its snapshots, in order.
   */
  lemma ConflictsPairwise(snapshots: seq<Snapshot>, g: Group)
    ensures g in ConflictsOf(snapshots) <==>
            Conflicted(snapshots, g.identity) && g.snapshots == GroupOf(snapshots, g.identity)
  {
    ConflictsAmongSpec(snapshots, Identities(snapshots), g);
    if Conflicted(snapshots, g.identity) {
      var s, t :| Disagree(snapshots, g.identity, s, t);
      assert g.identity in Identities(snapshots);
    }
  }

  function IdentitiesIn(groups: seq<Group>): seq<Identity> {
    Map((g: Group) => g.identity, groups)
  }

  lemma {:induction false} ConflictsAmongDistinct(snapshots: seq<Snapshot>, ids: seq<Identity>)
    requires NoRepeats(ids)
    ensures NoRepeats(IdentitiesIn(ConflictsAmong(snapshots, ids)))
  {
    if ids != [] {
      var init, last := ids[..|ids| - 1], ids[|ids| - 1];
      ConflictsAmongDistinct(snapshots, init);
      var gs := ConflictsAmong(snapshots, init);
      forall i | 0 <= i < |gs| ensures gs[i].identity != last {
        ConflictsAmongSpec(snapshots, init, gs[i]);
      }
    }
  }

  /** No identity is reported twice. */
  lemma ConflictsDistinct(snapshots: seq<Snapshot>)
    ensures NoRepeats(IdentitiesIn(ConflictsOf(snapshots)))
  {
    ConflictsAmongDistinct(snapshots, Identities(snapshots));
  }

  // ----- resolution -----

  datatype Reason =
    | ManualReviewRequired
    | HigherAuthorityTie | HigherAuthoritySelected
    | ObservedAtRequired | NewerSourceTie | NewerSourceSelected

  datatype Resolution = Unresolved(reason: Reason) | ResolvedByPolicy(selected: Snapshot, reason: Reason)

  /** How a policy orders snapshots; snapshots without a place in the order cannot win. */
  function Standing(policy: Policy): Snapshot -> Option<int> {
    match policy
    case ManualReview => (s: Snapshot) => None
    case HigherAuthorityWins => (s: Snapshot) => Some(AuthorityRank(s.source))
    case NewerSourceWins => (s: Snapshot) => s.source.observedAt
  }

  /** The greatest standing in a group, if any. */
  function Highest(standing: Snapshot -> Option<int>, group: seq<Snapshot>): Option<int> {
    if group == [] then None
    else
      var rest, own := Highest(standing, group[1..]), standing(group[0]);
      if own.None? then rest
      else if rest.None? || own.value > rest.value then own
      else rest
  }

  function StandsAt(standing: Snapshot -> Option<int>, highest: Option<int>): Snapshot -> bool {
    (s: Snapshot) => standing(s).Some? && standing(s) == highest
  }

  function Winners(standing: Snapshot -> Option<int>, group: seq<Snapshot>): seq<Snapshot> {
    Filter(StandsAt(standing, Highest(standing, group)), group)
  }

  /** Nobody in the group stands higher, and somebody stands there. */
  lemma {:induction false} HighestSpec(standing: Snapshot -> Option<int>, group: seq<Snapshot>)
    ensures var h := Highest(standing, group);
      && (h.None? ==> forall s :: s in group ==> standing(s).None?)
      && (h.Some? ==> exists s :: s in group && standing(s) == h)
      && (h.Some? ==> forall s :: s in group && standing(s).Some? ==> standing(s).value <= h.value)
  {
    if group != [] {
      HighestSpec(standing, group[1..]);
      assert forall s :: s in group <==> s == group[0] || s in group[1..];
    }
  }

  lemma {:induction false} WinnersExist(standing: Snapshot -> Option<int>, group: seq<Snapshot>)
    ensures Winners(standing, group) == [] <==> Highest(standing, group) == None
  {
    HighestSpec(standing, group);
    var p := StandsAt(standing, Highest(standing, group));
    if Highest(standing, group).Some? {
      var s :| s in group && standing(s) == Highest(standing, group);
      FilterMember(p, group, s);
    } else if Winners(standing, group) != [] {
      FilterMember(p, group, Winners(standing, group)[0]);
    }
  }

  /** `_select_if_winners_share_single_value` */
  function SelectSingleValue(winners: seq<Snapshot>): Option<Snapshot> {
    if winners != [] && |SignaturesOf(winners)| == 1 then Some(winners[0]) else None
  }

  /** `resolve_commercial_conflict_by_policy` */
  function Resolve(group: seq<Snapshot>, policy: Policy): Resolution {
    var winners := Winners(Standing(policy), group);
    var selected := SelectSingleValue(winners);
    match policy
    case ManualReview => Unresolved(ManualReviewRequired)
    case HigherAuthorityWins =>
      if selected.None? then Unresolved(HigherAuthorityTie)
      else ResolvedByPolicy(selected.value, HigherAuthoritySelected)
    case NewerSourceWins =>
      if winners == [] then Unresolved(ObservedAtRequired)
      else if selected.None? then Unresolved(NewerSourceTie)
      else ResolvedByPolicy(selected.value, NewerSourceSelected)
  }

  /** `_resolve_by_newer_source`: collect the dated snapshots, then those of the latest date. */
  method ResolveByNewerSource(group: seq<Snapshot>) returns (r: Resolution)
    ensures r == Resolve(group, NewerSourceWins)
  {
    var dated: seq<(Snapshot, int)> := [];
    var latest := None;
    for i := 0 to |group|
      invariant dated == DatedOf(group[..i])
      invariant latest == LatestOf(dated)
    {
      assert group[..i + 1] == group[..i] + [group[i]] && group[..i + 1][..i] == group[..i];
      var observedAt := group[i].source.observedAt;
      if observedAt.Some? {
        ghost var before := dated;
        dated := dated + [(group[i], observedAt.value)];
        assert dated[..|dated| - 1] == before;
        if latest.None? || observedAt.value > latest.value {
          latest := observedAt;
        }
      }
    }
    assert group[..|group|] == group;
    DatedHighest(group);
    WinnersExist(Standing(NewerSourceWins), group);
    if dated == [] {
      return Unresolved(ObservedAtRequired);
    }
    var winners: seq<Snapshot> := [];
    for i := 0 to |dated|
      invariant winners == LatestAmong(dated[..i], latest)
    {
      assert dated[..i + 1][..i] == dated[..i];
      if Some(dated[i].1) == latest {
        winners := winners + [dated[i].0];
      }
    }
    assert dated[..|dated|] == dated;
    DatedWinners(group, latest);
    var signatures := set s | s in winners :: s.signature;
    if |signatures| == 1 {
      r := ResolvedByPolicy(winners[0], NewerSourceSelected);
    } else {
      r := Unresolved(NewerSourceTie);
    }
  }

  function DatedOf(group: seq<Snapshot>): seq<(Snapshot, int)> {
    if group == [] then []
    else
      var init, last := DatedOf(group[..|group| - 1]), group[|group| - 1];
      if last.source.observedAt.Some? then init + [(last, last.source.observedAt.value)] else init
  }

  function LatestOf(dated: seq<(Snapshot, int)>): Option<int> {
    if dated == [] then None
    else
      var init, date := LatestOf(dated[..|dated| - 1]), dated[|dated| - 1].1;
      if init.None? || date > init.value then Some(date) else init
  }

  function LatestAmong(dated: seq<(Snapshot, int)>, latest: Option<int>): seq<Snapshot> {
    if dated == [] then []
    else
      var init, last := LatestAmong(dated[..|dated| - 1], latest), dated[|dated| - 1];
      if Some(last.1) == latest then init + [last.0] else init
  }

  lemma {:induction false} HighestSnoc(standing: Snapshot -> Option<int>, group: seq<Snapshot>, s: Snapshot)
    ensures var h := Highest(standing, group);
      Highest(standing, group + [s]) ==
        if standing(s).None? then h
        else if h.None? || standing(s).value > h.value then standing(s)
        else h
  {
    if group == [] {
      assert group + [s] == [s];
    } else {
      assert (group + [s])[1..] == group[1..] + [s];
      HighestSnoc(standing, group[1..], s);
    }
  }

  lemma {:induction false} DatedHighest(group: seq<Snapshot>)
    ensures LatestOf(DatedOf(group)) == Highest(Standing(NewerSourceWins), group)
    ensures DatedOf(group) == [] <==> Highest(Standing(NewerSourceWins), group) == None
  {
    if group != [] {
      var init, last := group[..|group| - 1], group[|group| - 1];
      assert group == init + [last];
      DatedHighest(init);
      HighestSnoc(Standing(NewerSourceWins), init, last);
      if last.source.observedAt.Some? {
        assert DatedOf(group)[..|DatedOf(init)|] == DatedOf(init);
      }
    }
  }

  lemma {:induction false} DatedWinners(group: seq<Snapshot>, latest: Option<int>)
    ensures LatestAmong(DatedOf(group), latest)
         == Filter(StandsAt(Standing(NewerSourceWins), latest), group)
  {
    var p := StandsAt(Standing(NewerSourceWins), latest);
    if group != [] {
      var init, last := group[..|group| - 1], group[|group| - 1];
      assert group == init + [last];
      DatedWinners(init, latest);
      FilterConcat(p, init, [last]);
      if last.source.observedAt.Some? {
        assert DatedOf(group)[..|DatedOf(init)|] == DatedOf(init);
      }
    }
  }

  // ----- what a resolution means -----

  /** `w` has a standing and nothing in the group stands higher. */
  ghost predicate Maximal(standing: Snapshot -> Option<int>, group: seq<Snapshot>, w: Snapshot) {
    && w in group && standing(w).Some?
    && forall s :: s in group && standing(s).Some? ==> standing(s).value <= standing(w).value
  }

  /** Every maximal snapshot says what `w` says. */
  ghost predicate Unanimous(standing: Snapshot -> Option<int>, group: seq<Snapshot>, w: Snapshot) {
    forall s :: Maximal(standing, group, s) ==> s.signature == w.signature
  }

  lemma WinnersAreMaximal(standing: Snapshot -> Option<int>, group: seq<Snapshot>, w: Snapshot)
    ensures w in Winners(standing, group) <==> Maximal(standing, group, w)
  {
    HighestSpec(standing, group);
    FilterMember(StandsAt(standing, Highest(standing, group)), group, w);
  }

  lemma SingleSignature(snapshots: seq<Snapshot>)
    requires snapshots != []
    ensures |SignaturesOf(snapshots)| == 1 <==> forall s :: s in snapshots ==> s.signature == snapshots[0].signature
  {
    var sigs := SignaturesOf(snapshots);
    SeveralElements(sigs);
    assert snapshots[0].signature in sigs;
    if |sigs| == 1 {
      forall s | s in snapshots ensures s.signature == snapshots[0].signature {
        assert s.signature in sigs;
      }
    }
  }

  /**
    A conflict is resolved exactly when all snapshots of highest standing say the same
    thing; what is selected is one of them.
   */
  lemma ResolvedIffUnanimous(group: seq<Snapshot>, policy: Policy)
    ensures Resolve(group, policy).ResolvedByPolicy? <==>
            exists w :: Maximal(Standing(policy), group, w) && Unanimous(Standing(policy), group, w)
    ensures Resolve(group, policy).ResolvedByPolicy? ==>
            var w := Resolve(group, policy).selected;
            Maximal(Standing(policy), group, w) && Unanimous(Standing(policy), group, w)
  {
    var standing := Standing(policy);
    var winners := Winners(standing, group);
    forall w ensures w in winners <==> Maximal(standing, group, w) {
      WinnersAreMaximal(standing, group, w);
    }
    if winners != [] {
      SingleSignature(winners);
      assert Maximal(standing, group, winners[0]);
      if Unanimous(standing, group, winners[0]) {
        assert |SignaturesOf(winners)| == 1;
      }
    }
  }

  /** Resolution looks only at which snapshots are there, not at their order or number. */
  lemma ResolveOrderFree(a: seq<Snapshot>, b: seq<Snapshot>, policy: Policy)
    requires forall s :: s in a <==> s in b
    ensures Resolve(a, policy).ResolvedByPolicy? == Resolve(b, policy).ResolvedByPolicy?
    ensures Resolve(a, policy).ResolvedByPolicy? ==>
              Resolve(a, policy).selected.signature == Resolve(b, policy).selected.signature
  {
    ResolvedIffUnanimous(a, policy);
    ResolvedIffUnanimous(b, policy);
    var standing := Standing(policy);
    assert forall w :: Maximal(standing, a, w) <==> Maximal(standing, b, w);
    assert forall w :: Unanimous(standing, a, w) <==> Unanimous(standing, b, w);
  }

  /**
    Permuting the input keeps which identities conflict, which of those conflicts are
    resolved, and the value selected for each.
   */
  lemma PermutationInvariant(a: seq<Snapshot>, b: seq<Snapshot>, policy: Policy, id: Identity)
    requires multiset(a) == multiset(b)
    ensures Conflicted(a, id) <==> Conflicted(b, id)
    ensures var r, q := Resolve(GroupOf(a, id), policy), Resolve(GroupOf(b, id), policy);
      r.ResolvedByPolicy? == q.ResolvedByPolicy? &&
      (r.ResolvedByPolicy? ==> r.selected.signature == q.selected.signature)
  {
    forall s ensures s in a <==> s in b {
      assert s in a <==> s in multiset(a);
    }
    assert forall s, t :: Disagree(a, id, s, t) <==> Disagree(b, id, s, t);
    forall s ensures s in GroupOf(a, id) <==> s in GroupOf(b, id) {
      GroupMember(a, id, s);
      GroupMember(b, id, s);
    }
    ResolveOrderFree(GroupOf(a, id), GroupOf(b, id), policy);
  }
}
