/** Ranking answer-time evidence by source authority, and detecting contradictions in it. */
module SourceAuthority {
  import opened Seqs
  import opened Text
  import opened StableSort

  datatype SourceType =
    | CompiledKnowledge | CompiledPriceList | CrmOperational | CatalogOperational | ConversationMemory
    | UserMessage | ManagerOverride | ToolResult | LlmReasoning

  datatype Freshness = LiveData | Current | SnapshotData | Stale | UnknownFreshness

  /** Scope and payload take part in equality only. */
  datatype Item = Item(
    sourceType: SourceType, content: string, scope: string, sourceId: Option<string>, factKey: Option<string>,
    freshness: Freshness, confidence: real, payload: string)

  predicate IsAuthoritative(i: Item) {
    i.sourceType != LlmReasoning
  }

  function FactKey(i: Item): Option<string> {
    if i.factKey.None? then None
    else
      var key := NormalizeValue(i.factKey.value);
      if key == "" then None else Some(key)
  }

  // ----- rank -----

  datatype Rank = Rank(authority: int, freshness: int, confidence: real)

  function AuthorityRank(t: SourceType): int {
    match t
    case LlmReasoning => 0
    case UserMessage => 20
    case ConversationMemory => 30
    case CompiledKnowledge => 50
    case CompiledPriceList => 60
    case ToolResult => 70
    case CatalogOperational => 80
    case CrmOperational => 90
    case ManagerOverride => 100
  }

  function FreshnessRank(f: Freshness): int {
    match f
    case LiveData => 50
    case Current => 40
    case SnapshotData => 30
    case UnknownFreshness => 10
    case Stale => 0
  }

  function RankOf(i: Item): Rank {
    Rank(AuthorityRank(i.sourceType), FreshnessRank(i.freshness), i.confidence)
  }

  /** Tuples compare lexicographically. */
  predicate AtLeast(a: Rank, b: Rank) {
    || a.authority > b.authority
    || (a.authority == b.authority && a.freshness > b.freshness)
    || (a.authority == b.authority && a.freshness == b.freshness && a.confidence >= b.confidence)
  }

  predicate RanksAtLeast(i: Item, j: Item) {
    AtLeast(RankOf(i), RankOf(j))
  }

  lemma {:induction false} RankIsPreorder()
    ensures TotalPreorder(RanksAtLeast)
  {
  }

  // ----- contradictions -----

  /** Same normalised key, different normalised content. */
  predicate Contradict(i: Item, j: Item) {
    && FactKey(i).Some? && FactKey(i) == FactKey(j)
    && NormalizeValue(i.content) != "" && NormalizeValue(j.content) != ""
    && NormalizeValue(i.content) != NormalizeValue(j.content)
  }

  predicate HasConflict(items: seq<Item>) {
    exists i, j :: i in items && j in items && Contradict(i, j)
  }

  /** The contents recorded under `key` by the items so far. */
  function ContentsUnder(items: seq<Item>, key: string): set<string> {
    set i | i in items && FactKey(i) == Some(key) && NormalizeValue(i.content) != "" :: NormalizeValue(i.content)
  }

  lemma SeveralContents(items: seq<Item>, key: string)
    ensures |ContentsUnder(items, key)| > 1 <==>
            exists i, j :: i in items && j in items && Contradict(i, j) && FactKey(i) == Some(key)
  {
    var contents := ContentsUnder(items, key);
    SeveralElements(contents);
    if |contents| > 1 {
      var x, y :| x in contents && y in contents && x != y;
      var i :| i in items && FactKey(i) == Some(key) && NormalizeValue(i.content) == x != "";
      var j :| j in items && FactKey(j) == Some(key) && NormalizeValue(j.content) == y != "";
      assert Contradict(i, j);
    }
    forall i, j | i in items && j in items && Contradict(i, j) && FactKey(i) == Some(key) ensures |contents| > 1 {
      assert NormalizeValue(i.content) in contents && NormalizeValue(j.content) in contents;
    }
  }

  lemma {:induction false} ContentsSnoc(items: seq<Item>, item: Item, key: string)
    ensures var content := NormalizeValue(item.content);
      ContentsUnder(items + [item], key) ==
      ContentsUnder(items, key) + if FactKey(item) == Some(key) && content != "" then {content} else {}
  {
  }

  /** The dictionary holds, for every key, the contents recorded under it. */
  ghost predicate Indexes(byKey: map<string, set<string>>, items: seq<Item>) {
    && (forall key :: key in byKey ==> byKey[key] == ContentsUnder(items, key))
    && (forall key :: key !in byKey ==> ContentsUnder(items, key) == {})
  }

  lemma {:induction false} IndexSnoc(byKey: map<string, set<string>>, byKey': map<string, set<string>>,
                                     items: seq<Item>, item: Item)
    requires Indexes(byKey, items)
    requires byKey' == if FactKey(item).Some? && NormalizeValue(item.content) != "" then
                         var key := FactKey(item).value;
                         byKey[key := (if key in byKey then byKey[key] else {}) + {NormalizeValue(item.content)}]
                       else byKey
    ensures Indexes(byKey', items + [item])
  {
    forall key ensures (key in byKey' ==> byKey'[key] == ContentsUnder(items + [item], key)) &&
                       (key !in byKey' ==> ContentsUnder(items + [item], key) == {})
    {
      ContentsSnoc(items, item, key);
    }
  }

  /** `_has_content_conflict`: one set of contents per key, filled item by item. */
  method HasContentConflict(items: seq<Item>) returns (conflict: bool)
    ensures conflict == HasConflict(items)
  {
    var byKey: map<string, set<string>> := map[];
    for n := 0 to |items|
      invariant Indexes(byKey, items[..n])
    {
      var item := items[n];
      ghost var before := byKey;
      var key, content := FactKey(item), NormalizeValue(item.content);
      if key.Some? && content != "" {
        var contents := if key.value in byKey then byKey[key.value] else {};
        byKey := byKey[key.value := contents + {content}];
      }
      IndexSnoc(before, byKey, items[..n], item);
      assert items[..n + 1] == items[..n] + [item];
    }
    assert items[..|items|] == items;
    conflict := exists key :: key in byKey && |byKey[key]| > 1;
    ConflictByKey(items, byKey);
  }

  lemma {:induction false} ConflictByKey(items: seq<Item>, byKey: map<string, set<string>>)
    requires Indexes(byKey, items)
    ensures HasConflict(items) <==> exists key :: key in byKey && |byKey[key]| > 1
  {
    if HasConflict(items) {
      var i, j :| i in items && j in items && Contradict(i, j);
      var key := FactKey(i).value;
      SeveralContents(items, key);
      assert key in byKey && |byKey[key]| > 1;
    }
    forall key | key in byKey && |byKey[key]| > 1 ensures HasConflict(items) {
      SeveralContents(items, key);
    }
  }

  // ----- selection -----

  datatype Strategy = PreferHigherAuthority | RequireHumanReview | DiscloseUncertainty

  datatype AuthorityReason = NoAuthoritative | ConflictRequiresReview | SelectedHighest

  datatype AuthorityDecision = AuthorityDecision(
    preferred: Option<Item>, rejected: seq<Item>, reason: AuthorityReason, conflictDetected: bool,
    requiresHumanReview: bool, strategy: Strategy)

  /** `select_preferred` */
  function SelectPreferred(items: seq<Item>, strategy: Strategy): AuthorityDecision {
    var authoritative := Filter(IsAuthoritative, items);
    if authoritative == [] then
      AuthorityDecision(None, items, NoAuthoritative, items != [], items != [], strategy)
    else
      var ordered := Sort(RanksAtLeast, authoritative);
      SortNonempty(authoritative);
      var conflict := HasConflict(ordered);
      if conflict && strategy == RequireHumanReview then
        AuthorityDecision(Some(ordered[0]), ordered[1..], ConflictRequiresReview, true, true, strategy)
      else
        AuthorityDecision(Some(ordered[0]), ordered[1..], SelectedHighest, conflict, false, strategy)
  }

  lemma {:induction false} SortNonempty(items: seq<Item>)
    ensures Sort(RanksAtLeast, items) == [] <==> items == []
  {
  }

  /** The decision read as a list: preferred, then rejected. */
  function Arranged(d: AuthorityDecision): seq<Item> {
    if d.preferred.Some? then [d.preferred.value] + d.rejected else d.rejected
  }

  lemma {:induction false} SelectionIsSorted(items: seq<Item>, strategy: Strategy)
    requires Filter(IsAuthoritative, items) != []
    ensures SelectPreferred(items, strategy).preferred.Some?
    ensures Arranged(SelectPreferred(items, strategy)) == Sort(RanksAtLeast, Filter(IsAuthoritative, items))
  {
  }

  /**
    Preferred followed by rejected is the one stable, lexicographically descending
    arrangement of the authoritative items.
   */
  lemma {:induction false} SelectionPartitions(items: seq<Item>, strategy: Strategy)
    requires exists i :: i in items && IsAuthoritative(i)
    ensures SelectPreferred(items, strategy).preferred.Some?
    ensures var all, authoritative := Arranged(SelectPreferred(items, strategy)), Filter(IsAuthoritative, items);
      && multiset(all) == multiset(authoritative)
      && Descending(RanksAtLeast, all)
      && SameClasses(RanksAtLeast, all, authoritative)
  {
    var i :| i in items && IsAuthoritative(i);
    FilterMember(IsAuthoritative, items, i);
    SelectionIsSorted(items, strategy);
    RankIsPreorder();
    SortCorrect(RanksAtLeast, Filter(IsAuthoritative, items));
  }

  /** Any decision with those properties is the one made. */
  lemma SelectionUnique(items: seq<Item>, strategy: Strategy, preferred: Item, rejected: seq<Item>)
    requires Descending(RanksAtLeast, [preferred] + rejected)
    requires SameClasses(RanksAtLeast, [preferred] + rejected, Filter(IsAuthoritative, items))
    ensures SelectPreferred(items, strategy).preferred == Some(preferred)
    ensures SelectPreferred(items, strategy).rejected == rejected
  {
    var authoritative := Filter(IsAuthoritative, items);
    var ordered, other := Sort(RanksAtLeast, authoritative), [preferred] + rejected;
    RankIsPreorder();
    SortCorrect(RanksAtLeast, authoritative);
    ClassMember(RanksAtLeast, other, authoritative, preferred);
    assert preferred in other;
    forall c ensures Filter(Ties(RanksAtLeast, c), ordered) == Filter(Ties(RanksAtLeast, c), other) {
      assert Filter(Ties(RanksAtLeast, c), ordered) == Filter(Ties(RanksAtLeast, c), authoritative);
      assert Filter(Ties(RanksAtLeast, c), other) == Filter(Ties(RanksAtLeast, c), authoritative);
    }
    StableSortUnique(RanksAtLeast, ordered, other);
  }

  /** The conflict flag is the pairwise specification over the authoritative items. */
  lemma {:induction false} ConflictFlag(items: seq<Item>, strategy: Strategy)
    requires exists i :: i in items && IsAuthoritative(i)
    ensures SelectPreferred(items, strategy).conflictDetected <==>
            exists i, j :: i in items && j in items && IsAuthoritative(i) && IsAuthoritative(j) && Contradict(i, j)
  {
    var authoritative := Filter(IsAuthoritative, items);
    forall i ensures i in Sort(RanksAtLeast, authoritative) <==> i in items && IsAuthoritative(i) {
      FilterMember(IsAuthoritative, items, i);
      RankIsPreorder();
      SortMember(RanksAtLeast, authoritative, i);
    }
    var i :| i in items && IsAuthoritative(i);
    assert i in Sort(RanksAtLeast, authoritative);
    assert authoritative != [] by {
      FilterMember(IsAuthoritative, items, i);
    }
  }
}
