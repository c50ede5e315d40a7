/** The commercial truth review report and its agreement with the retrieval surface. */
module TruthReview {
  import opened Seqs
  import opened PriceKnowledge
  import opened CommercialTruth
  import opened RetrievalSurface

  datatype FactReview = FactReview(
    factId: string, documentId: string, itemName: string, sourceId: string, eligible: bool)

  datatype ConflictReview = ConflictReview(
    identity: Identity, resolved: bool, selectedId: Option<string>, options: seq<FactReview>)

  datatype Report = Report(facts: seq<FactReview>, conflicts: seq<ConflictReview>, surface: seq<PriceFact>) {
    function ResolvedCount(): nat {
      |Filter(IsResolved(), conflicts)|
    }

    function UnresolvedCount(): int {
      |conflicts| - ResolvedCount()
    }

    function SurfaceIds(): seq<string> {
      Map(FactId, surface)
    }
  }

  function FactId(f: PriceFact): string {
    f.id
  }

  function ReviewOf(s: Snapshot): FactReview {
    FactReview(s.fact.id, s.fact.documentId, s.fact.itemName, s.source.id, IsPublished(s.fact))
  }

  function ConflictReviewOf(g: Group, policy: Policy): ConflictReview {
    var r := Resolve(g.snapshots, policy);
    ConflictReview(g.identity, r.ResolvedByPolicy?,
                   if r.ResolvedByPolicy? then Some(r.selected.fact.id) else None,
                   Map(ReviewOf, g.snapshots))
  }

  function Reviewer(policy: Policy): Group -> ConflictReview {
    (g: Group) => ConflictReviewOf(g, policy)
  }

  function SourceFor(f: PriceFact, sources: map<string, Source>): Source {
    if f.documentId in sources then sources[f.documentId] else Source(f.documentId, UnknownSource, None, None)
  }

  function SnapshotsOf(facts: seq<PriceFact>, sources: map<string, Source>): seq<Snapshot> {
    Map((f: PriceFact) => MakeSnapshot(f, SourceFor(f, sources)), facts)
  }

  /** `review_price_facts` */
  function Review(facts: seq<PriceFact>, sources: map<string, Source>, policy: Policy): Report {
    var snapshots := SnapshotsOf(facts, sources);
    Report(Map(ReviewOf, snapshots),
           Map(Reviewer(policy), ConflictsOf(snapshots)),
           Surface(snapshots, policy))
  }

  /** `reviews_by_fact_id[id]`: the last review of that id. */
  function ReviewById(reviews: seq<FactReview>, id: string): Option<FactReview> {
    if reviews == [] then None
    else if reviews[|reviews| - 1].factId == id then Some(reviews[|reviews| - 1])
    else ReviewById(reviews[..|reviews| - 1], id)
  }

  /** `surface_fact_reviews` */
  function SurfaceReviews(reviews: seq<FactReview>, ids: seq<string>): seq<FactReview> {
    if ids == [] then []
    else
      var rest, found := SurfaceReviews(reviews, ids[1..]), ReviewById(reviews, ids[0]);
      if found.Some? then [found.value] + rest else rest
  }

  // ----- agreement -----

  lemma {:induction false} SnapshotsMade(facts: seq<PriceFact>, sources: map<string, Source>)
    ensures Made(SnapshotsOf(facts, sources))
    ensures DistinctFactIds(facts) ==> DistinctIds(SnapshotsOf(facts, sources))
  {
  }

  lemma {:induction false} ReviewByIdSpec(snapshots: seq<Snapshot>, s: Snapshot)
    requires DistinctIds(snapshots) && s in snapshots
    ensures ReviewById(Map(ReviewOf, snapshots), s.fact.id) == Some(ReviewOf(s))
  {
    var init, last := snapshots[..|snapshots| - 1], snapshots[|snapshots| - 1];
    assert snapshots == init + [last];
    MapConcat(ReviewOf, init, [last]);
    var reviews := Map(ReviewOf, snapshots);
    assert reviews[|reviews| - 1] == ReviewOf(last);
    if s != last {
      assert s in init;
      ReviewByIdSpec(init, s);
      assert reviews[..|reviews| - 1] == Map(ReviewOf, init);
    }
  }

  /** The review shown for a surface fact. */
  ghost predicate ReviewsFact(r: FactReview, f: PriceFact) {
    r.factId == f.id && r.documentId == f.documentId && r.itemName == f.itemName && r.eligible && IsPublished(f)
  }

  ghost predicate Backed(snapshots: seq<Snapshot>, f: PriceFact) {
    IsPublished(f) && exists s :: s in snapshots && s.fact == f
  }

  lemma ReviewOfBacked(snapshots: seq<Snapshot>, f: PriceFact)
    requires DistinctIds(snapshots) && Backed(snapshots, f)
    ensures var r := ReviewById(Map(ReviewOf, snapshots), f.id); r.Some? && ReviewsFact(r.value, f)
  {
    var s :| s in snapshots && s.fact == f;
    ReviewByIdSpec(snapshots, s);
  }

  ghost predicate Aligned(reviews: seq<FactReview>, facts: seq<PriceFact>) {
    |reviews| == |facts| && forall i :: 0 <= i < |facts| ==> ReviewsFact(reviews[i], facts[i])
  }

  lemma {:induction false} ReviewsAlign(snapshots: seq<Snapshot>, facts: seq<PriceFact>)
    requires DistinctIds(snapshots) && forall f :: f in facts ==> Backed(snapshots, f)
    ensures Aligned(SurfaceReviews(Map(ReviewOf, snapshots), Map(FactId, facts)), facts)
  {
    if facts != [] {
      assert facts[0] in facts;
      ReviewOfBacked(snapshots, facts[0]);
      ReviewsAlign(snapshots, facts[1..]);
      assert Map(FactId, facts)[1..] == Map(FactId, facts[1..]);
    }
  }

  /** The reviews listed for the surface are those of the surface facts, one each, in order, all eligible. */
  lemma {:induction false} SurfaceReviewsAgree(facts: seq<PriceFact>, sources: map<string, Source>, policy: Policy)
    requires DistinctFactIds(facts)
    ensures var report := Review(facts, sources, policy);
      Aligned(SurfaceReviews(report.facts, report.SurfaceIds()), report.surface)
  {
    var snapshots := SnapshotsOf(facts, sources);
    SnapshotsMade(facts, sources);
    forall f | f in Surface(snapshots, policy)
      ensures Backed(snapshots, f)
    {
      var s := SurfaceOrigin(snapshots, policy, f);
    }
    ReviewsAlign(snapshots, Surface(snapshots, policy));
  }

  /** The option with this id is eligible. */
  predicate EligibleOption(options: seq<FactReview>, id: string) {
    exists r :: r in options && r.factId == id && r.eligible
  }

  lemma {:induction false} EligibleOptionIff(group: seq<Snapshot>, w: Snapshot)
    requires w in group && forall s :: s in group && s.fact.id == w.fact.id ==> s == w
    ensures EligibleOption(Map(ReviewOf, group), w.fact.id) <==> IsPublished(w.fact)
  {
  }

  /** A reported conflict that puts a fact on the surface. */
  predicate Settled(c: ConflictReview) {
    c.resolved && c.selectedId.Some? && EligibleOption(c.options, c.selectedId.value)
  }

  lemma SettledIff(snapshots: seq<Snapshot>, g: Group, policy: Policy)
    requires DistinctIds(snapshots) && g in ConflictsOf(snapshots)
    ensures Settled(ConflictReviewOf(g, policy)) <==> Publishable(Resolve(g.snapshots, policy))
  {
    var r := Resolve(g.snapshots, policy);
    if r.ResolvedByPolicy? {
      ResolvedIffUnanimous(g.snapshots, policy);
      ConflictsPairwise(snapshots, g);
      GroupMember(snapshots, g.identity, r.selected);
      forall s | s in g.snapshots && s.fact.id == r.selected.fact.id ensures s == r.selected {
        GroupMember(snapshots, g.identity, s);
        SameIdSameSnapshot(snapshots, s, r.selected);
      }
      EligibleOptionIff(g.snapshots, r.selected);
    }
  }

  lemma CountSnoc<A, B>(p: B -> bool, f: A -> B, xs: seq<A>, x: A)
    ensures |Filter(p, Map(f, xs + [x]))| == |Filter(p, Map(f, xs))| + if p(f(x)) then 1 else 0
  {
    MapConcat(f, xs, [x]);
    assert Map(f, [x]) == [f(x)];
    FilterConcat(p, Map(f, xs), [f(x)]);
  }

  lemma {:induction false} WinnersCounted(snapshots: seq<Snapshot>, groups: seq<Group>, policy: Policy)
    requires DistinctIds(snapshots) && forall g :: g in groups ==> g in ConflictsOf(snapshots)
    ensures |Filter(Settled, Map(Reviewer(policy), groups))| == |WinningFacts(groups, policy)|
  {
    if groups != [] {
      var init, last := groups[..|groups| - 1], groups[|groups| - 1];
      assert groups == init + [last];
      WinnersCounted(snapshots, init, policy);
      CountSnoc(Settled, Reviewer(policy), init, last);
      SettledIff(snapshots, last, policy);
    }
  }

  /**
    The report's numbers: every conflict is resolved or not, the surface holds one fact
    per undisputed published fact and one per conflict settled by an eligible option.
   */
  lemma {:induction false} ReportCounts(facts: seq<PriceFact>, sources: map<string, Source>, policy: Policy)
    requires DistinctFactIds(facts)
    ensures var report := Review(facts, sources, policy);
      var snapshots := SnapshotsOf(facts, sources);
      && |report.facts| == |facts|
      && report.ResolvedCount() + report.UnresolvedCount() == |report.conflicts| == |ConflictsOf(snapshots)|
      && report.UnresolvedCount() >= 0
      && |report.surface| == |Filter(Undisputed(snapshots), snapshots)| + |Filter(Settled, report.conflicts)|
  {
    var snapshots := SnapshotsOf(facts, sources);
    SnapshotsMade(facts, sources);
    SurfaceExact(snapshots, policy);
    WinnersCounted(snapshots, ConflictsOf(snapshots), policy);
  }

  /** Of the options of a reported conflict, only the selected one can be on the surface, and it is when eligible. */
  lemma OptionsOnSurface(facts: seq<PriceFact>, sources: map<string, Source>, policy: Policy, g: Group, s: Snapshot)
    requires DistinctFactIds(facts)
    requires g in ConflictsOf(SnapshotsOf(facts, sources)) && s in g.snapshots
    ensures s.fact in Review(facts, sources, policy).surface <==>
            ConflictReviewOf(g, policy).selectedId == Some(s.fact.id) && IsPublished(s.fact)
  {
    var snapshots := SnapshotsOf(facts, sources);
    SnapshotsMade(facts, sources);
    ConflictsPairwise(snapshots, g);
    GroupMember(snapshots, g.identity, s);
    SurfaceMembership(snapshots, policy, s);
    var r := Resolve(g.snapshots, policy);
    if r.ResolvedByPolicy? && r.selected.fact.id == s.fact.id {
      ResolvedIffUnanimous(g.snapshots, policy);
      GroupMember(snapshots, g.identity, r.selected);
      SameIdSameSnapshot(snapshots, s, r.selected);
    }
  }

  // ----- the report, entry by entry -----

  /** What is said about a fact: its own names, its source, and whether it is published. */
  predicate Describes(r: FactReview, f: PriceFact, sources: map<string, Source>) {
    && r.factId == f.id && r.documentId == f.documentId && r.itemName == f.itemName
    && r.sourceId == (if f.documentId in sources then sources[f.documentId].id else f.documentId)
    && (r.eligible <==> f.status == Published)
  }

  /** One review per fact, in order. */
  lemma FactsDescribed(facts: seq<PriceFact>, sources: map<string, Source>, policy: Policy)
    ensures var report := Review(facts, sources, policy);
      |report.facts| == |facts| && forall i :: 0 <= i < |facts| ==> Describes(report.facts[i], facts[i], sources)
  {
  }

  /** Each fact is compared with the source its document has, or an unknown one without a date. */
  lemma SnapshotsExact(facts: seq<PriceFact>, sources: map<string, Source>)
    ensures var snapshots := SnapshotsOf(facts, sources);
      && |snapshots| == |facts|
      && forall i :: 0 <= i < |facts| ==>
           && snapshots[i].fact == facts[i]
           && snapshots[i].source == (if facts[i].documentId in sources then sources[facts[i].documentId]
                                      else Source(facts[i].documentId, UnknownSource, None, None))
           && snapshots[i].identity == IdentityOf(facts[i]) && snapshots[i].signature == SignatureOf(facts[i])
  {
  }

  /** What is said about a conflict: its identity, its options in order, and the outcome. */
  ghost predicate Reports(c: ConflictReview, g: Group, policy: Policy) {
    var r := Resolve(g.snapshots, policy);
    && c.identity == g.identity
    && (c.resolved <==> r.ResolvedByPolicy?)
    && c.selectedId == (if r.ResolvedByPolicy? then Some(r.selected.fact.id) else None)
    && |c.options| == |g.snapshots|
    && forall i :: 0 <= i < |c.options| ==> c.options[i] == ReviewOf(g.snapshots[i])
  }

  function SettledBy(policy: Policy): Group -> bool {
    (g: Group) => Resolve(g.snapshots, policy).ResolvedByPolicy?
  }

  /** One conflict review per conflict, in order. */
  lemma ConflictsReported(facts: seq<PriceFact>, sources: map<string, Source>, policy: Policy)
    ensures var report, conflicts := Review(facts, sources, policy), ConflictsOf(SnapshotsOf(facts, sources));
      && |report.conflicts| == |conflicts|
      && forall i :: 0 <= i < |conflicts| ==> Reports(report.conflicts[i], conflicts[i], policy)
  {
  }

  /** The counts are those of the conflicts the policy settles and of the others. */
  lemma CountsExact(facts: seq<PriceFact>, sources: map<string, Source>, policy: Policy)
    ensures var report, conflicts := Review(facts, sources, policy), ConflictsOf(SnapshotsOf(facts, sources));
      exists settled: seq<Group> :: Selects(SettledBy(policy), conflicts, settled) &&
        report.ResolvedCount() == |settled| && report.UnresolvedCount() == |conflicts| - |settled|
  {
    var conflicts := ConflictsOf(SnapshotsOf(facts, sources));
    ResolvedCounted(conflicts, policy);
    FilterSelects(SettledBy(policy), conflicts);
  }

  function IsResolved(): ConflictReview -> bool {
    (c: ConflictReview) => c.resolved
  }

  lemma {:induction false} ResolvedCounted(groups: seq<Group>, policy: Policy)
    ensures |Filter(IsResolved(), Map(Reviewer(policy), groups))| == |Filter(SettledBy(policy), groups)|
  {
    if groups != [] {
      ResolvedCounted(groups[1..], policy);
      assert Map(Reviewer(policy), groups)[1..] == Map(Reviewer(policy), groups[1..]);
    }
  }
}
