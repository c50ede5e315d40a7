/**
  What a price lookup answers, said about the facts, filters and slots as they are given:
  by position, and by the words of names and values.
 */
module LookupLaws {
  import opened Text
  import opened Seqs
  import opened PriceKnowledge

  // ----- names and values -----

  /** The fact goes by the name asked for, as its item or as an alias. */
  predicate NamedBy(f: PriceFact, item: string) {
    && Words(item) != []
    && (SameWords(item, f.itemName) || exists i :: 0 <= i < |f.aliases| && SameWords(item, f.aliases[i]))
  }

  lemma NamedIff(f: PriceFact, item: string)
    ensures MatchesItem(f, item) <==> NamedBy(f, item)
  {
    NormalValueEmpty(item);
    SameNormalValueIff(item, f.itemName);
    var names := Map(NormalizeValue, f.aliases);
    forall i | 0 <= i < |f.aliases|
      ensures names[i] == NormalizeValue(item) <==> SameWords(item, f.aliases[i])
    {
      SameNormalValueIff(item, f.aliases[i]);
    }
    assert NormalizeValue(item) in names <==> exists i :: 0 <= i < |names| && names[i] == NormalizeValue(item);
  }

  /** Two spellings of one slot: the same words up to case and underscores. */
  predicate SameSlot(k: string, l: string) {
    SameWords(UnderscoresToSpaces(k), UnderscoresToSpaces(l))
  }

  predicate Named(slot: string) {
    Words(UnderscoresToSpaces(slot)) != []
  }

  /** Entry `i` names a slot and gives it a value. */
  predicate Given(d: Dict, i: nat) {
    i < |d| && Named(d[i].0) && Words(d[i].1) != []
  }

  /** The last entry that gives the slot a value gives this one. */
  predicate Holds(d: Dict, slot: string, value: string) {
    exists j: nat :: 0 <= j < |d| && GivesLast(d, j, slot) && SameWords(d[j].1, value)
  }

  predicate GivesLast(d: Dict, j: nat, slot: string) {
    && Given(d, j) && SameSlot(d[j].0, slot)
    && forall k: nat :: j < k < |d| && Given(d, k) ==> !SameSlot(d[k].0, slot)
  }

  predicate HasSlot(d: Dict, slot: string) {
    exists j: nat :: 0 <= j < |d| && Given(d, j) && SameSlot(d[j].0, slot)
  }

  /** Every given filter has its value in the fact's variant. */
  predicate Agrees(f: PriceFact, filters: Dict) {
    forall i: nat :: 0 <= i < |filters| && Given(filters, i) ==> Holds(f.variant, filters[i].0, filters[i].1)
  }

  // ----- the dictionaries behind them -----

  lemma GivenIff(d: Dict, i: nat)
    requires i < |d|
    ensures Given(d, i) <==> NormalEntry(d[i]).0 != "" && NormalEntry(d[i]).1 != ""
  {
    NormalNameEmpty(d[i].0);
    NormalValueEmpty(d[i].1);
  }

  lemma {:induction false} EntriesSnoc(d: Dict, e: (string, string))
    ensures NormalizedEntries(d + [e]) == NormalizedEntries(d) + Effective(e)
  {
    if d == [] {
      EntriesCons(e, []);
      assert d + [e] == [e] + [];
    } else {
      var first, rest := d[0], d[1..];
      assert d + [e] == [first] + (rest + [e]);
      EntriesCons(first, rest + [e]);
      EntriesSnoc(rest, e);
      Associate(Effective(first), NormalizedEntries(rest), Effective(e));
    }
  }

  lemma DictSnoc(d: Dict, e: (string, string), key: string)
    ensures Get(NormalizedDict(d + [e]), key) ==
            if Effective(e) != [] && NormalEntry(e).0 == key then Some(NormalEntry(e).1)
            else Get(NormalizedDict(d), key)
  {
    EntriesSnoc(d, e);
    var es := NormalizedEntries(d);
    if Effective(e) != [] {
      assert (es + Effective(e))[..|es|] == es;
      GetPut(FromEntries(es), NormalEntry(e).0, NormalEntry(e).1, key);
    } else {
      assert es + Effective(e) == es;
    }
  }

  /** The normalised dictionary answers with the last given entry of a slot. */
  lemma {:induction false} DictHolds(d: Dict, slot: string, value: string)
    ensures Get(NormalizedDict(d), NormalizeName(slot)) == Some(NormalizeValue(value)) <==> Holds(d, slot, value)
    ensures HasKey(NormalizedDict(d), NormalizeName(slot)) <==> HasSlot(d, slot)
  {
    if d != [] {
      var init, last := d[..|d| - 1], d[|d| - 1];
      assert d == init + [last];
      DictHolds(init, slot, value);
      DictSnoc(init, last, NormalizeName(slot));
      GivenIff(d, |d| - 1);
      SameNormalNameIff(last.0, slot);
      SameNormalValueIff(last.1, value);
      HoldsSnoc(init, last, slot, value);
    }
  }

  lemma HoldsSnoc(d: Dict, e: (string, string), slot: string, value: string)
    ensures var all := d + [e];
      && (Holds(all, slot, value) <==>
            if Given(all, |d|) && SameSlot(e.0, slot) then SameWords(e.1, value) else Holds(d, slot, value))
      && (HasSlot(all, slot) <==> HasSlot(d, slot) || (Given(all, |d|) && SameSlot(e.0, slot)))
  {
    var all := d + [e];
    forall j: nat | j < |d| ensures Given(all, j) <==> Given(d, j) {
    }
    if Given(all, |d|) && SameSlot(e.0, slot) {
      assert GivesLast(all, |d|, slot);
      forall j: nat | j < |all| && GivesLast(all, j, slot) ensures j == |d| {
      }
    } else {
      forall j: nat | j < |d| ensures GivesLast(all, j, slot) <==> GivesLast(d, j, slot) {
      }
    }
    if HasSlot(d, slot) {
      var j: nat :| j < |d| && Given(d, j) && SameSlot(d[j].0, slot);
      assert Given(all, j) && SameSlot(all[j].0, slot);
    }
  }

  lemma {:induction false} EntryIff(d: Dict, e: (string, string))
    ensures e in NormalizedEntries(d) <==> exists i: nat :: 0 <= i < |d| && Given(d, i) && e == NormalEntry(d[i])
  {
    if d != [] {
      var n := |d| - 1;
      assert d == d[..n] + [d[n]];
      EntriesSnoc(d[..n], d[n]);
      EntryIff(d[..n], e);
      GivenIff(d, n);
      forall i: nat | i < n ensures Given(d, i) <==> Given(d[..n], i) {
      }
      if i: nat :| i < n && Given(d[..n], i) && e == NormalEntry(d[..n][i]) {
        assert Given(d, i) && e == NormalEntry(d[i]);
      }
      if i: nat :| i < |d| && Given(d, i) && e == NormalEntry(d[i]) {
        assert i < n ==> Given(d[..n], i) && e == NormalEntry(d[..n][i]);
      }
    }
  }

  /** Matching a variant compares slot by slot, the last value given for a slot counting. */
  lemma AgreesIff(f: PriceFact, filters: Dict)
    ensures MatchesVariant(f, filters) <==> Agrees(f, filters)
  {
    forall i: nat | i < |filters|
      ensures Get(NormalizedDict(f.variant), NormalEntry(filters[i]).0) == Some(NormalEntry(filters[i]).1) <==>
              Holds(f.variant, filters[i].0, filters[i].1)
    {
      DictHolds(f.variant, filters[i].0, filters[i].1);
    }
    forall e ensures e in NormalizedEntries(filters) <==>
      exists i: nat :: 0 <= i < |filters| && Given(filters, i) && e == NormalEntry(filters[i])
    {
      EntryIff(filters, e);
    }
    forall i: nat | i < |filters| && Given(filters, i) ensures NormalEntry(filters[i]) in NormalizedEntries(filters) {
      EntryIff(filters, NormalEntry(filters[i]));
    }
  }

  // ----- the answer -----

  /** Published, of the project, and going by that name. */
  predicate Speaking(q: LookupQuery, f: PriceFact) {
    f.status == Published && f.projectId == q.projectId && NamedBy(f, q.itemName)
  }

  function SpeaksFor(q: LookupQuery): PriceFact -> bool {
    (f: PriceFact) => Speaking(q, f)
  }

  function Fits(q: LookupQuery): PriceFact -> bool {
    (f: PriceFact) => Speaking(q, f) && Agrees(f, q.filters)
  }

  /** A required slot that is named and not given by the filters. */
  function Lacking(filters: Dict): string -> bool {
    (slot: string) => Named(slot) && !HasSlot(filters, slot)
  }

  lemma EligibleIs(q: LookupQuery, facts: seq<PriceFact>)
    ensures Eligible(q, facts) == Filter(SpeaksFor(q), facts)
  {
    forall f ensures SpeaksFor(q)(f) == (IsPublished(f) && AskedAbout(q)(f)) {
      NamedIff(f, q.itemName);
    }
    FilterBoth(IsPublished, AskedAbout(q), SpeaksFor(q), facts);
  }

  lemma EligibleSelects(q: LookupQuery, facts: seq<PriceFact>)
    ensures Selects(SpeaksFor(q), facts, Eligible(q, facts))
  {
    EligibleIs(q, facts);
    FilterSelects(SpeaksFor(q), facts);
  }

  lemma MatchingSelects(q: LookupQuery, facts: seq<PriceFact>)
    ensures Selects(Fits(q), facts, Filter(MatchesFilters(q.filters), Eligible(q, facts)))
  {
    EligibleIs(q, facts);
    forall f ensures Fits(q)(f) == (SpeaksFor(q)(f) && MatchesFilters(q.filters)(f)) {
      AgreesIff(f, q.filters);
    }
    FilterBoth(SpeaksFor(q), MatchesFilters(q.filters), Fits(q), facts);
    FilterSelects(Fits(q), facts);
  }

  /** `names` are the normal names of the required slots the filters lack, in order. */
  ghost predicate AsksFor(names: seq<string>, filters: Dict, slots: seq<string>) {
    exists asked: seq<string> :: Selects(Lacking(filters), slots, asked) && names == Map(NormalizeName, asked)
  }

  /** The missing slots are the required ones, named and not given by a filter, in order, by their normal names. */
  lemma MissingExact(filters: Dict, slots: seq<string>)
    ensures AsksFor(MissingSlots(filters, slots), filters, slots)
  {
    forall slot ensures Lacking(filters)(slot) == NotGiven(filters)(NormalizeName(slot)) {
      NormalNameEmpty(slot);
      DictHolds(filters, slot, "");
    }
    FilterOfMap(NormalizeName, NotGiven(filters), Lacking(filters), slots);
    FilterSelects(Lacking(filters), slots);
  }

  ghost predicate AnySpeaks(q: LookupQuery, facts: seq<PriceFact>) {
    exists i :: 0 <= i < |facts| && Speaking(q, facts[i])
  }

  ghost predicate AnyLacking(filters: Dict, slots: seq<string>) {
    exists i :: 0 <= i < |slots| && Lacking(filters)(slots[i])
  }

  /**
    The whole answer.  Nothing speaks: not found.  A required slot is not given: all facts
    that speak, with the slots to ask for.  Otherwise exactly the facts that speak and agree
    with every filter, in order and with multiplicity.
   */
  lemma LookupFacts(q: LookupQuery, facts: seq<PriceFact>, slots: seq<string>)
    ensures var r := Lookup(q, facts, slots);
      if !AnySpeaks(q, facts) then r == LookupResult(NotFound, [], [])
      else if AnyLacking(q.filters, slots) then
        && r.decision == NeedsClarification && Selects(SpeaksFor(q), facts, r.facts)
        && AsksFor(r.missingSlots, q.filters, slots)
      else
        r.decision != NeedsClarification && Selects(Fits(q), facts, r.facts) && r.missingSlots == []
  {
    EligibleSelects(q, facts);
    SelectionSize(SpeaksFor(q), facts, Eligible(q, facts));
    MatchingSelects(q, facts);
    MissingExact(q.filters, slots);
    var missing := MissingSlots(q.filters, slots);
    var asked :| Selects(Lacking(q.filters), slots, asked) && missing == Map(NormalizeName, asked);
    SelectionSize(Lacking(q.filters), slots, asked);
  }

  /**
    With every required slot given, the decision is by the number of facts that fit: none,
    several, or one, which is on request or can be answered with.
   */
  lemma LookupDecides(q: LookupQuery, facts: seq<PriceFact>, slots: seq<string>)
    requires !AnyLacking(q.filters, slots)
    ensures var r := Lookup(q, facts, slots);
      && (r.decision == NotFound <==> forall i :: 0 <= i < |facts| ==> !Fits(q)(facts[i]))
      && (r.decision == Conflict <==> exists i, j :: 0 <= i < j < |facts| && Fits(q)(facts[i]) && Fits(q)(facts[j]))
      && (r.decision == RequiresManager <==>
            exists i: nat :: Only(Fits(q), facts, i) && facts[i].valueKind == OnRequest)
      && (r.decision == Answerable <==>
            exists i: nat :: Only(Fits(q), facts, i) && facts[i].valueKind != OnRequest)
  {
    var r := Lookup(q, facts, slots);
    LookupFacts(q, facts, slots);
    if AnySpeaks(q, facts) {
      SelectionSize(Fits(q), facts, r.facts);
      SelectionOne(Fits(q), facts, r.facts);
      DecidedBySize(q, facts, slots);
    }
  }

  lemma DecidedBySize(q: LookupQuery, facts: seq<PriceFact>, slots: seq<string>)
    requires AnySpeaks(q, facts) && !AnyLacking(q.filters, slots)
    ensures var r := Lookup(q, facts, slots);
      && (r.decision == NotFound <==> r.facts == [])
      && (r.decision == Conflict <==> |r.facts| > 1)
      && (r.decision == RequiresManager <==> |r.facts| == 1 && r.facts[0].valueKind == OnRequest)
      && (r.decision == Answerable <==> |r.facts| == 1 && r.facts[0].valueKind != OnRequest)
  {
    LookupFacts(q, facts, slots);
  }
}
