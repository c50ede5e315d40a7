/**
  The retrieval surface: the facts the assistant may quote once conflicts are settled.
 */
module RetrievalSurface {
  import opened Seqs
  import opened PriceKnowledge
  import opened CommercialTruth

  function FactIdsOf(groups: seq<Group>): set<string> {
    set g, s | g in groups && s in g.snapshots :: s.fact.id
  }

  predicate Publishable(r: Resolution) {
    r.ResolvedByPolicy? && IsPublished(r.selected.fact)
  }

  /** The published winners, one per conflict settled by the policy. */
  function WinningFacts(groups: seq<Group>, policy: Policy): seq<PriceFact> {
    if groups == [] then []
    else
      var rest := WinningFacts(groups[..|groups| - 1], policy);
      var r := Resolve(groups[|groups| - 1].snapshots, policy);
      if Publishable(r) then rest + [r.selected.fact] else rest
  }

  function Kept(conflictedIds: set<string>): Snapshot -> bool {
    (s: Snapshot) => s.fact.id !in conflictedIds && IsPublished(s.fact)
  }

  function FactsOf(snapshots: seq<Snapshot>): seq<PriceFact> {
    Map((s: Snapshot) => s.fact, snapshots)
  }

  /** `_dedupe_facts_by_id`: the first fact of each id. */
  function DedupeById(facts: seq<PriceFact>): seq<PriceFact> {
    if facts == [] then []
    else
      var init, last := DedupeById(facts[..|facts| - 1]), facts[|facts| - 1];
      if exists f :: f in init && f.id == last.id then init else init + [last]
  }

  function Candidates(snapshots: seq<Snapshot>, policy: Policy): seq<PriceFact> {
    var conflicts := ConflictsOf(snapshots);
    FactsOf(Filter(Kept(FactIdsOf(conflicts)), snapshots)) + WinningFacts(conflicts, policy)
  }

  function Surface(snapshots: seq<Snapshot>, policy: Policy): seq<PriceFact> {
    DedupeById(Candidates(snapshots, policy))
  }

  /** `commercial_retrieval_surface_facts` */
  method SurfaceFacts(snapshots: seq<Snapshot>, policy: Policy) returns (surface: seq<PriceFact>)
    ensures surface == Surface(snapshots, policy)
  {
    var conflicts := DetectConflicts(snapshots);
    var conflictedIds := FactIdsOf(conflicts);
    var selected: seq<PriceFact> := [];
    for i := 0 to |snapshots|
      invariant selected == FactsOf(Filter(Kept(conflictedIds), snapshots[..i]))
    {
      var s := snapshots[i];
      assert snapshots[..i + 1] == snapshots[..i] + [s];
      KeptSnoc(conflictedIds, snapshots[..i], s);
      if s.fact.id !in conflictedIds && IsPublished(s.fact) {
        selected := selected + [s.fact];
      }
    }
    assert snapshots[..|snapshots|] == snapshots;
    var winners := SelectWinners(conflicts, policy);
    surface := DedupeFactsById(selected + winners);
  }

  method SelectWinners(conflicts: seq<Group>, policy: Policy) returns (selected: seq<PriceFact>)
    ensures selected == WinningFacts(conflicts, policy)
  {
    selected := [];
    for i := 0 to |conflicts|
      invariant selected == WinningFacts(conflicts[..i], policy)
    {
      assert conflicts[..i + 1][..i] == conflicts[..i];
      var resolution := Resolve(conflicts[i].snapshots, policy);
      if Publishable(resolution) {
        selected := selected + [resolution.selected.fact];
      }
    }
    assert conflicts[..|conflicts|] == conflicts;
  }

  lemma KeptSnoc(ids: set<string>, snapshots: seq<Snapshot>, s: Snapshot)
    ensures var before := FactsOf(Filter(Kept(ids), snapshots));
      FactsOf(Filter(Kept(ids), snapshots + [s])) == if Kept(ids)(s) then before + [s.fact] else before
  {
    FilterConcat(Kept(ids), snapshots, [s]);
  }

  method DedupeFactsById(facts: seq<PriceFact>) returns (result: seq<PriceFact>)
    ensures result == DedupeById(facts)
  {
    var seen: set<string>;
    result, seen := [], {};
    for i := 0 to |facts|
      invariant result == DedupeById(facts[..i])
      invariant seen == set f | f in result :: f.id
    {
      assert facts[..i + 1][..i] == facts[..i];
      if facts[i].id !in seen {
        result := result + [facts[i]];
        seen := seen + {facts[i].id};
      }
    }
    assert facts[..|facts|] == facts;
  }

  // ----- members of the surface -----

  /** No fact before `i` has its id. */
  predicate FirstOfId(facts: seq<PriceFact>, i: nat) {
    i < |facts| && forall j :: 0 <= j < i ==> facts[j].id != facts[i].id
  }

  /** `f` is the first fact of its id, and where it stands no fact with the id of `g` has come yet. */
  ghost predicate ComesBefore(facts: seq<PriceFact>, f: PriceFact, g: PriceFact) {
    exists i: nat :: FirstOfId(facts, i) && facts[i] == f && forall j :: 0 <= j <= i ==> facts[j].id != g.id
  }

  ghost predicate IsFirst(facts: seq<PriceFact>, f: PriceFact) {
    exists i: nat :: FirstOfId(facts, i) && facts[i] == f
  }

  ghost predicate HasId(facts: seq<PriceFact>, id: string) {
    exists f :: f in facts && f.id == id
  }

  lemma FirstOfIdSnoc(facts: seq<PriceFact>, last: PriceFact, i: nat)
    ensures FirstOfId(facts + [last], i) <==>
            FirstOfId(facts, i) || (i == |facts| && !HasId(facts, last.id))
  {
    var all := facts + [last];
    assert forall j :: 0 <= j < |facts| ==> all[j] == facts[j];
    if i == |facts| && FirstOfId(all, i) {
      forall f | f in facts ensures f.id != last.id {
        var j :| 0 <= j < |facts| && facts[j] == f;
        assert all[j].id != all[i].id;
      }
    }
    if i == |facts| && !HasId(facts, last.id) {
      forall j | 0 <= j < i ensures all[j].id != all[i].id {
        assert all[j] in facts;
      }
    }
  }

  lemma IsFirstSnoc(facts: seq<PriceFact>, last: PriceFact, f: PriceFact)
    ensures IsFirst(facts + [last], f) <==> IsFirst(facts, f) || (f == last && !HasId(facts, last.id))
  {
    forall i: nat ensures FirstOfId(facts + [last], i) <==>
                          FirstOfId(facts, i) || (i == |facts| && !HasId(facts, last.id))
    {
      FirstOfIdSnoc(facts, last, i);
    }
    if IsFirst(facts, f) {
      var i: nat :| FirstOfId(facts, i) && facts[i] == f;
      assert FirstOfId(facts + [last], i);
    }
    if f == last && !HasId(facts, last.id) {
      assert FirstOfId(facts + [last], |facts|);
    }
  }

  lemma ComesBeforeSnoc(facts: seq<PriceFact>, last: PriceFact, f: PriceFact, g: PriceFact)
    requires ComesBefore(facts, f, g)
    ensures ComesBefore(facts + [last], f, g)
  {
    var i: nat :| FirstOfId(facts, i) && facts[i] == f && forall j :: 0 <= j <= i ==> facts[j].id != g.id;
    FirstOfIdSnoc(facts, last, i);
    assert (facts + [last])[i] == f;
  }

  lemma ComesBeforeNew(facts: seq<PriceFact>, f: PriceFact, g: PriceFact)
    requires IsFirst(facts, f) && !HasId(facts, g.id)
    ensures ComesBefore(facts, f, g)
  {
    var i: nat :| FirstOfId(facts, i) && facts[i] == f;
    assert forall j :: 0 <= j <= i ==> facts[j] in facts;
  }

  lemma {:induction false} DedupeIds(facts: seq<PriceFact>, id: string)
    ensures HasId(DedupeById(facts), id) <==> HasId(facts, id)
  {
    if facts != [] {
      var init, last := facts[..|facts| - 1], facts[|facts| - 1];
      assert facts == init + [last];
      DedupeIds(init, id);
      DedupeIds(init, last.id);
    }
  }

  /** Of every id exactly the first fact is kept, once, in the order in which the ids first appear. */
  lemma {:induction false} DedupeExact(facts: seq<PriceFact>)
    ensures var r := DedupeById(facts);
      && DistinctFactIds(r)
      && (forall f :: f in r <==> IsFirst(facts, f))
      && forall a, b :: 0 <= a < b < |r| ==> ComesBefore(facts, r[a], r[b])
  {
    if facts != [] {
      var init, last := facts[..|facts| - 1], facts[|facts| - 1];
      var before, r := DedupeById(init), DedupeById(facts);
      assert facts == init + [last];
      DedupeExact(init);
      DedupeIds(init, last.id);
      forall f ensures f in r <==> IsFirst(facts, f) {
        IsFirstSnoc(init, last, f);
      }
      forall a, b | 0 <= a < b < |r| ensures ComesBefore(facts, r[a], r[b]) {
        if b == |before| {
          assert r[a] in before;
          ComesBeforeNew(init, r[a], last);
        }
        ComesBeforeSnoc(init, last, r[a], r[b]);
      }
    }
  }

  lemma {:induction false} DedupeMembers(facts: seq<PriceFact>, f: PriceFact)
    requires f in DedupeById(facts)
    ensures f in facts
  {
    var init := facts[..|facts| - 1];
    assert facts == init + [facts[|facts| - 1]];
    if f in DedupeById(init) {
      DedupeMembers(init, f);
    }
  }

  lemma {:induction false} WinningMembers(groups: seq<Group>, policy: Policy, f: PriceFact)
    ensures f in WinningFacts(groups, policy) <==>
            exists g :: g in groups && Wins(g, policy, f)
  {
    if groups != [] {
      var init, last := groups[..|groups| - 1], groups[|groups| - 1];
      assert groups == init + [last];
      WinningMembers(init, policy, f);
      if Wins(last, policy, f) {
        assert last in groups;
      }
    }
  }

  predicate Wins(g: Group, policy: Policy, f: PriceFact) {
    var r := Resolve(g.snapshots, policy);
    Publishable(r) && r.selected.fact == f
  }

  lemma {:induction false} FactsMember(snapshots: seq<Snapshot>, f: PriceFact)
    ensures f in FactsOf(snapshots) <==> exists s :: s in snapshots && s.fact == f
  {
  }

  /** A fact is a candidate if it is published and either out of every conflict or the winner of its own. */
  ghost predicate KeptBy(snapshots: seq<Snapshot>, s: Snapshot) {
    s in snapshots && IsPublished(s.fact) && s.fact.id !in FactIdsOf(ConflictsOf(snapshots))
  }

  ghost predicate WinsIn(snapshots: seq<Snapshot>, policy: Policy, s: Snapshot) {
    && s in snapshots && IsPublished(s.fact) && Conflicted(snapshots, s.identity)
    && Resolve(GroupOf(snapshots, s.identity), policy).ResolvedByPolicy?
    && Resolve(GroupOf(snapshots, s.identity), policy).selected == s
  }

  lemma {:induction false} KeptMember(snapshots: seq<Snapshot>, ids: set<string>, f: PriceFact)
    ensures f in FactsOf(Filter(Kept(ids), snapshots)) <==>
            exists s :: s in snapshots && Kept(ids)(s) && s.fact == f
  {
    FactsMember(Filter(Kept(ids), snapshots), f);
    forall s ensures s in Filter(Kept(ids), snapshots) <==> s in snapshots && Kept(ids)(s) {
      FilterMember(Kept(ids), snapshots, s);
    }
  }

  lemma WinnerInSnapshots(snapshots: seq<Snapshot>, policy: Policy, g: Group, f: PriceFact) returns (s: Snapshot)
    requires g in ConflictsOf(snapshots) && Wins(g, policy, f)
    ensures s.fact == f && s.identity == g.identity && WinsIn(snapshots, policy, s)
  {
    ConflictsPairwise(snapshots, g);
    s := Resolve(g.snapshots, policy).selected;
    ResolvedIffUnanimous(g.snapshots, policy);
    GroupMember(snapshots, g.identity, s);
  }

  /** Where a surface fact comes from. */
  lemma SurfaceOrigin(snapshots: seq<Snapshot>, policy: Policy, f: PriceFact) returns (s: Snapshot)
    requires f in Surface(snapshots, policy)
    ensures s.fact == f && (KeptBy(snapshots, s) || WinsIn(snapshots, policy, s))
  {
    var conflicts := ConflictsOf(snapshots);
    DedupeMembers(Candidates(snapshots, policy), f);
    KeptMember(snapshots, FactIdsOf(conflicts), f);
    WinningMembers(conflicts, policy, f);
    if f in WinningFacts(conflicts, policy) {
      var g :| g in conflicts && Wins(g, policy, f);
      s := WinnerInSnapshots(snapshots, policy, g, f);
    } else {
      s :| s in snapshots && Kept(FactIdsOf(conflicts))(s) && s.fact == f;
    }
  }

  /** A kept snapshot is about an identity without conflict. */
  lemma KeptUnconflicted(snapshots: seq<Snapshot>, s: Snapshot)
    requires KeptBy(snapshots, s)
    ensures !Conflicted(snapshots, s.identity)
  {
    var g := Group(s.identity, GroupOf(snapshots, s.identity));
    ConflictsPairwise(snapshots, g);
    GroupMember(snapshots, s.identity, s);
    assert g in ConflictsOf(snapshots) ==> s.fact.id in FactIdsOf(ConflictsOf(snapshots));
  }

  /**
    For any snapshots and any policy: two facts on the surface about the same thing say
    the same thing.
   */
  lemma {:induction false} SurfaceCoherent(snapshots: seq<Snapshot>, policy: Policy, f: PriceFact, g: PriceFact)
    requires Made(snapshots)
    requires f in Surface(snapshots, policy) && g in Surface(snapshots, policy)
    requires IdentityOf(f) == IdentityOf(g)
    ensures SignatureOf(f) == SignatureOf(g)
  {
    var s := SurfaceOrigin(snapshots, policy, f);
    var t := SurfaceOrigin(snapshots, policy, g);
    assert s.identity == t.identity;
    if !Conflicted(snapshots, s.identity) {
      assert !Disagree(snapshots, s.identity, s, t);
    } else {
      if KeptBy(snapshots, s) {
        KeptUnconflicted(snapshots, s);
      }
      if KeptBy(snapshots, t) {
        KeptUnconflicted(snapshots, t);
      }
    }
  }

  /** A lookup conflict over the surface never sets two values of one identity against each other. */
  lemma {:induction false} SurfaceLookupConflict(snapshots: seq<Snapshot>, policy: Policy, q: LookupQuery,
                                                 slots: seq<string>, f: PriceFact, g: PriceFact)
    requires Made(snapshots)
    requires var r := Lookup(q, Surface(snapshots, policy), slots);
      r.decision == Decision.Conflict && f in r.facts && g in r.facts
    ensures IdentityOf(f) != IdentityOf(g) || SignatureOf(f) == SignatureOf(g)
  {
    LookupGrounded(q, Surface(snapshots, policy), slots, f);
    LookupGrounded(q, Surface(snapshots, policy), slots, g);
    if IdentityOf(f) == IdentityOf(g) {
      SurfaceCoherent(snapshots, policy, f, g);
    }
  }

  // ----- the surface exactly, when fact ids are distinct -----

  ghost predicate DistinctIds(snapshots: seq<Snapshot>) {
    forall i, j :: 0 <= i < j < |snapshots| ==> snapshots[i].fact.id != snapshots[j].fact.id
  }

  predicate DistinctFactIds(facts: seq<PriceFact>) {
    forall i, j :: 0 <= i < j < |facts| ==> facts[i].id != facts[j].id
  }

  lemma {:induction false} SameIdSameSnapshot(snapshots: seq<Snapshot>, s: Snapshot, t: Snapshot)
    requires DistinctIds(snapshots) && s in snapshots && t in snapshots && s.fact.id == t.fact.id
    ensures s == t
  {
  }

  lemma {:induction false} DedupeDistinct(facts: seq<PriceFact>)
    requires DistinctFactIds(facts)
    ensures DedupeById(facts) == facts
  {
    if facts != [] {
      var init := facts[..|facts| - 1];
      DedupeDistinct(init);
    }
  }

  lemma {:induction false} FilterIdsDistinct(p: Snapshot -> bool, snapshots: seq<Snapshot>)
    requires DistinctIds(snapshots)
    ensures DistinctIds(Filter(p, snapshots))
  {
    if snapshots != [] {
      FilterIdsDistinct(p, snapshots[1..]);
      var rest := Filter(p, snapshots[1..]);
      forall j | 0 <= j < |rest| ensures rest[j].fact.id != snapshots[0].fact.id {
        FilterMember(p, snapshots[1..], rest[j]);
      }
    }
  }

  /** With distinct ids, an id is in conflict exactly when the identity of its snapshot is. */
  lemma ConflictedIdIffIdentity(snapshots: seq<Snapshot>, s: Snapshot)
    requires DistinctIds(snapshots) && s in snapshots
    ensures s.fact.id in FactIdsOf(ConflictsOf(snapshots)) <==> Conflicted(snapshots, s.identity)
  {
    var own := Group(s.identity, GroupOf(snapshots, s.identity));
    ConflictsPairwise(snapshots, own);
    GroupMember(snapshots, s.identity, s);
    if s.fact.id in FactIdsOf(ConflictsOf(snapshots)) {
      var g, t :| g in ConflictsOf(snapshots) && t in g.snapshots && t.fact.id == s.fact.id;
      ConflictsPairwise(snapshots, g);
      GroupMember(snapshots, g.identity, t);
      SameIdSameSnapshot(snapshots, s, t);
    }
  }

  /** A published snapshot about an identity nobody disagrees on. */
  ghost function Undisputed(snapshots: seq<Snapshot>): Snapshot -> bool {
    (s: Snapshot) => !Conflicted(snapshots, s.identity) && IsPublished(s.fact)
  }

  lemma KeptIsUndisputed(snapshots: seq<Snapshot>)
    requires DistinctIds(snapshots)
    ensures Filter(Kept(FactIdsOf(ConflictsOf(snapshots))), snapshots) == Filter(Undisputed(snapshots), snapshots)
  {
    forall s | s in snapshots
      ensures Kept(FactIdsOf(ConflictsOf(snapshots)))(s) == Undisputed(snapshots)(s)
    {
      ConflictedIdIffIdentity(snapshots, s);
    }
    FilterSame(Kept(FactIdsOf(ConflictsOf(snapshots))), Undisputed(snapshots), snapshots);
  }

  /** Winners of different conflicts are different snapshots, so their ids differ. */
  lemma {:induction false} WinningIdsDistinct(snapshots: seq<Snapshot>, groups: seq<Group>, policy: Policy)
    requires DistinctIds(snapshots) && NoRepeats(IdentitiesIn(groups))
    requires forall g :: g in groups ==> g in ConflictsOf(snapshots)
    ensures DistinctFactIds(WinningFacts(groups, policy))
  {
    if groups != [] {
      var init, last := groups[..|groups| - 1], groups[|groups| - 1];
      assert IdentitiesIn(init) == IdentitiesIn(groups)[..|init|];
      WinningIdsDistinct(snapshots, init, policy);
      var facts := WinningFacts(init, policy);
      var r := Resolve(last.snapshots, policy);
      if Publishable(r) {
        var w := WinnerInSnapshots(snapshots, policy, last, r.selected.fact);
        forall i | 0 <= i < |facts| ensures facts[i].id != w.fact.id {
          WinningMembers(init, policy, facts[i]);
          var g :| g in init && Wins(g, policy, facts[i]);
          var v := WinnerInSnapshots(snapshots, policy, g, facts[i]);
          LastIdentityNew(groups, g);
          if v.fact.id == w.fact.id {
            SameIdSameSnapshot(snapshots, v, w);
          }
        }
      }
    }
  }

  lemma {:induction false} LastIdentityNew(groups: seq<Group>, g: Group)
    requires groups != [] && NoRepeats(IdentitiesIn(groups)) && g in groups[..|groups| - 1]
    ensures g.identity != groups[|groups| - 1].identity
  {
  }

  lemma CandidateIdsDistinct(snapshots: seq<Snapshot>, policy: Policy)
    requires DistinctIds(snapshots)
    ensures DistinctFactIds(Candidates(snapshots, policy))
  {
    var conflicts := ConflictsOf(snapshots);
    var ids := FactIdsOf(conflicts);
    var kept, won := FactsOf(Filter(Kept(ids), snapshots)), WinningFacts(conflicts, policy);
    FilterIdsDistinct(Kept(ids), snapshots);
    ConflictsDistinct(snapshots);
    WinningIdsDistinct(snapshots, conflicts, policy);
    forall i, j | 0 <= i < |kept| && 0 <= j < |won| ensures kept[i].id != won[j].id {
      KeptMember(snapshots, ids, kept[i]);
      WinningMembers(conflicts, policy, won[j]);
      var g :| g in conflicts && Wins(g, policy, won[j]);
      WinningIdConflicted(snapshots, policy, g, won[j]);
    }
  }

  lemma WinningIdConflicted(snapshots: seq<Snapshot>, policy: Policy, g: Group, f: PriceFact)
    requires g in ConflictsOf(snapshots) && Wins(g, policy, f)
    ensures f.id in FactIdsOf(ConflictsOf(snapshots))
  {
    ResolvedIffUnanimous(g.snapshots, policy);
    assert Resolve(g.snapshots, policy).selected in g.snapshots;
  }

  /**
    With distinct fact ids the surface is exactly the published facts of identities
    nobody disagrees on, followed by the published winners of the settled conflicts,
    without duplicates.  Unpublished facts count when identities are compared.
   */
  lemma {:induction false} SurfaceExact(snapshots: seq<Snapshot>, policy: Policy)
    requires DistinctIds(snapshots)
    ensures Surface(snapshots, policy)
         == FactsOf(Filter(Undisputed(snapshots), snapshots)) + WinningFacts(ConflictsOf(snapshots), policy)
    ensures DistinctFactIds(Surface(snapshots, policy))
  {
    KeptIsUndisputed(snapshots);
    CandidateIdsDistinct(snapshots, policy);
    DedupeDistinct(Candidates(snapshots, policy));
  }

  /** Membership in the surface, snapshot by snapshot: undisputed, or the selected winner. */
  lemma SurfaceMembership(snapshots: seq<Snapshot>, policy: Policy, s: Snapshot)
    requires DistinctIds(snapshots) && s in snapshots
    ensures s.fact in Surface(snapshots, policy) <==>
            IsPublished(s.fact) && (!Conflicted(snapshots, s.identity) || WinsIn(snapshots, policy, s))
  {
    SurfaceExact(snapshots, policy);
    if s.fact in Surface(snapshots, policy) {
      var t := SurfaceOrigin(snapshots, policy, s.fact);
      SameIdSameSnapshot(snapshots, s, t);
      ConflictedIdIffIdentity(snapshots, s);
    }
    if Undisputed(snapshots)(s) {
      FilterMember(Undisputed(snapshots), snapshots, s);
      FactsMember(Filter(Undisputed(snapshots), snapshots), s.fact);
    }
    if WinsIn(snapshots, policy, s) {
      var g := Group(s.identity, GroupOf(snapshots, s.identity));
      ConflictsPairwise(snapshots, g);
      assert Wins(g, policy, s.fact);
      WinningMembers(ConflictsOf(snapshots), policy, s.fact);
    }
  }

  /** Nothing is quoted about an identity whose conflict is unresolved. */
  lemma UnresolvedWithheld(snapshots: seq<Snapshot>, policy: Policy, id: Identity, f: PriceFact)
    requires Made(snapshots) && Conflicted(snapshots, id)
    requires Resolve(GroupOf(snapshots, id), policy).Unresolved?
    requires IdentityOf(f) == id
    ensures f !in Surface(snapshots, policy)
  {
    if f in Surface(snapshots, policy) {
      var s := SurfaceOrigin(snapshots, policy, f);
      if KeptBy(snapshots, s) {
        KeptUnconflicted(snapshots, s);
      }
    }
  }
}
