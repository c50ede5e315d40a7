/**
  Guessing the language of a text from letter and stop-word counts, and the vote over
  several texts.  Shares are compared as exact fractions.
 */
module LanguagePolicy {
  import opened Seqs
  import opened StableSort

  datatype Language = Ru | En | De | Es | Unknown

  /**
    What the regular expressions count in a text after neutral tokens are dropped: Cyrillic
    letters, plain Latin letters, German and Spanish diacritics, stop words of each language.
   */
  datatype Signals = Signals(cyr: nat, plain: nat, deu: nat, esp: nat, deHits: nat, esHits: nat, enHits: nat)

  function Latin(s: Signals): nat {
    s.plain + s.deu + s.esp
  }

  /** `part / whole >= percent / 100` */
  predicate ShareAtLeast(part: nat, whole: nat, percent: nat)
    requires whole > 0
  {
    part as real / whole as real >= percent as real / 100.0
  }

  /** `detect_language_hint`, from the counts on */
  function Detect(s: Signals): Language {
    var lat := Latin(s);
    var total := s.cyr + lat;
    if total < 6 then if s.cyr >= 3 && s.cyr >= lat then Ru else Unknown
    else if ShareAtLeast(s.cyr, total, 65) then Ru
    else if s.cyr >= 3 && s.cyr > lat then Ru
    else if !ShareAtLeast(lat, total, 65) then Unknown
    else if s.deu >= 2 && s.deu >= s.esp + 1 then De
    else if s.esp >= 2 && s.esp >= s.deu + 1 then Es
    else if s.deHits >= 2 && s.deHits > s.esHits && s.deHits > s.enHits then De
    else if s.esHits >= 2 && s.esHits > s.deHits && s.esHits > s.enHits then Es
    else En
  }

  lemma {:induction false} ShareIsProduct(part: nat, whole: nat, percent: nat)
    requires whole > 0
    ensures ShareAtLeast(part, whole, percent) <==> 100 * part >= percent * whole
  {
  }

  /**
    The cascade comes down to two comparisons: Russian is three Cyrillic letters in the
    majority, and a Latin language is a share of at least 65% of at least six letters.
   */
  lemma DetectionExact(s: Signals)
    ensures Detect(s) == Ru <==> s.cyr >= 3 && s.cyr > Latin(s)
    ensures Detect(s) in {En, De, Es} <==> s.cyr + Latin(s) >= 6 && 35 * Latin(s) >= 65 * s.cyr
    ensures s.cyr + Latin(s) >= 6 ==> (Detect(s) == Ru <==> s.cyr > Latin(s))
  {
    var total := s.cyr + Latin(s);
    if total >= 6 {
      ShareIsProduct(s.cyr, total, 65);
      ShareIsProduct(Latin(s), total, 65);
    }
  }

  /** German or Spanish by diacritics: two of them, and more than of the other language. */
  predicate Marked(own: nat, other: nat) {
    own >= 2 && own > other
  }

  /** By stop words: two of them, and more than of either other language. */
  predicate Worded(own: nat, other: nat, english: nat) {
    own >= 2 && own > other && own > english
  }

  /** Among Latin languages diacritics decide before stop words, and English is what is left. */
  lemma LatinExact(s: Signals)
    requires s.cyr + Latin(s) >= 6 && 35 * Latin(s) >= 65 * s.cyr
    ensures Detect(s) == De <==>
            Marked(s.deu, s.esp) || (!Marked(s.esp, s.deu) && Worded(s.deHits, s.esHits, s.enHits))
    ensures Detect(s) == Es <==>
            Marked(s.esp, s.deu) || (!Marked(s.deu, s.esp) && Worded(s.esHits, s.deHits, s.enHits))
  {
    DetectionExact(s);
  }

  /** Exchanging German and Spanish signals. */
  function Mirror(s: Signals): Signals {
    s.(deu := s.esp, esp := s.deu, deHits := s.esHits, esHits := s.deHits)
  }

  function MirrorLanguage(l: Language): Language {
    if l == De then Es else if l == Es then De else l
  }

  /** The order in which German and Spanish are tried favours neither. */
  lemma {:induction false} DetectionSymmetric(s: Signals)
    ensures Detect(Mirror(s)) == MirrorLanguage(Detect(s))
  {
  }

  // ----- the vote -----

  function Votes(values: seq<Signals>, l: Language): nat {
    if values == [] then 0
    else Votes(values[..|values| - 1], l) + if Detect(values[|values| - 1]) == l then 1 else 0
  }

  /** The votes for each language. */
  function VotesOf(values: seq<Signals>): Language -> nat {
    l => Votes(values, l)
  }

  function Known(votes: Language -> nat): nat {
    votes(Ru) + votes(En) + votes(De) + votes(Es)
  }

  /** `l` holds at least 66% of the votes that name a language. */
  predicate Dominates(votes: Language -> nat, l: Language) {
    l != Unknown && Known(votes) > 0 && 100 * votes(l) >= 66 * Known(votes)
  }

  /** The counts dictionary; its keys are all hints. */
  type Counts = map<Language, nat>

  function Count(counts: Counts, l: Language): nat {
    if l in counts then counts[l] else 0
  }

  function CountsOf(counts: Counts): Language -> nat {
    l => Count(counts, l)
  }

  function HasVotes(counts: Counts): Language -> bool {
    l => l != Unknown && Count(counts, l) > 0
  }

  function MoreVotes(counts: Counts): (Language, Language) -> bool {
    (a, b) => Count(counts, a) >= Count(counts, b)
  }

  /** The dictionary's keys in insertion order. */
  const HINTS := [Ru, En, De, Es, Unknown]

  function Sum(counts: Counts, ls: seq<Language>): nat {
    if ls == [] then 0 else Count(counts, ls[0]) + Sum(counts, ls[1..])
  }

  lemma {:induction false} KnownPositive(counts: Counts, known: seq<Language>)
    requires known == Filter(HasVotes(counts), HINTS) && Sort(MoreVotes(counts), known) != []
    ensures Sum(counts, known) > 0
  {
  }

  /** The part of `dominant_language` after counting: filter, sort, tie check, share check. */
  function Winner(counts: Counts): Language {
    var known := Filter(HasVotes(counts), HINTS);
    var ranking := Sort(MoreVotes(counts), known);
    if ranking == [] then Unknown
    else
      var top := Count(counts, ranking[0]);
      var second := if |ranking| > 1 then Count(counts, ranking[1]) else 0;
      var total := Sum(counts, known);
      assert total > 0 by { KnownPositive(counts, known); }
      if top == second || !ShareAtLeast(top, total, 66) then Unknown else ranking[0]
  }

  predicate Tally(counts: Counts, values: seq<Signals>) {
    forall l :: Count(counts, l) == Votes(values, l)
  }

  lemma KnownSum(counts: Counts)
    ensures Sum(counts, Filter(HasVotes(counts), HINTS)) == Known(CountsOf(counts))
  {
    var p := HasVotes(counts);
    assert HINTS[1..] == [En, De, Es, Unknown] && HINTS[1..][1..] == [De, Es, Unknown];
    assert [De, Es, Unknown][1..] == [Es, Unknown] && [Es, Unknown][1..] == [Unknown] && [Unknown][1..] == [];
    var es := Filter(p, [Es, Unknown]);
    assert Filter(p, [Unknown]) == [] && Sum(counts, es) == Count(counts, Es);
    var de := Filter(p, [De, Es, Unknown]);
    assert p(De) ==> de == [De] + es && de[1..] == es;
    assert Sum(counts, de) == Count(counts, De) + Count(counts, Es);
    var en := Filter(p, [En, De, Es, Unknown]);
    assert p(En) ==> en == [En] + de && en[1..] == de;
    assert Sum(counts, en) == Count(counts, En) + Sum(counts, de);
    var ru := Filter(p, HINTS);
    assert p(Ru) ==> ru == [Ru] + en && ru[1..] == en;
  }

  /** The ranking holds the languages with votes, and starts with one that has the most. */
  lemma RankingTop(counts: Counts)
    ensures var ranking := Sort(MoreVotes(counts), Filter(HasVotes(counts), HINTS));
      && (forall l :: l in ranking <==> HasVotes(counts)(l))
      && (ranking != [] ==> forall l :: l != Unknown ==> Count(counts, l) <= Count(counts, ranking[0]))
  {
    var geq, known := MoreVotes(counts), Filter(HasVotes(counts), HINTS);
    var ranking := Sort(geq, known);
    SortCorrect(geq, known);
    forall l ensures l in ranking <==> HasVotes(counts)(l) {
      SortMember(geq, known, l);
      FilterMember(HasVotes(counts), HINTS, l);
      assert l in HINTS by { AllHints(l); }
    }
    if ranking != [] {
      forall l | l != Unknown ensures Count(counts, l) <= Count(counts, ranking[0]) {
        if HasVotes(counts)(l) {
          var i :| 0 <= i < |ranking| && ranking[i] == l;
          assert i > 0 ==> geq(ranking[0], ranking[i]);
        }
      }
    }
  }

  lemma {:induction false} AllHints(l: Language)
    ensures l in HINTS
  {
  }

  lemma TwoOccurrences<T>(xs: seq<T>)
    requires |xs| > 1 && xs[0] == xs[1]
    ensures multiset(xs)[xs[0]] >= 2
  {
    assert xs == [xs[0], xs[1]] + xs[2..];
  }

  lemma {:induction false} TwoOf(counts: Counts, a: Language, b: Language)
    requires a != b && a != Unknown && b != Unknown
    ensures Count(counts, a) + Count(counts, b) <= Known(CountsOf(counts))
  {
  }

  /** The first two of the ranking are different languages. */
  lemma RankingSecond(counts: Counts, ranking: seq<Language>)
    requires ranking == Sort(MoreVotes(counts), Filter(HasVotes(counts), HINTS)) && |ranking| > 1
    ensures ranking[0] != ranking[1]
  {
    SortCorrect(MoreVotes(counts), Filter(HasVotes(counts), HINTS));
    if ranking[0] == ranking[1] {
      TwoOccurrences(ranking);
      HintsOnce(counts, ranking[0]);
    }
  }

  lemma {:induction false} HintsOnce(counts: Counts, l: Language)
    ensures multiset(Filter(HasVotes(counts), HINTS))[l] <= 1
  {
    FilterCount(HasVotes(counts), HINTS, l);
    assert multiset(HINTS) == multiset{Ru, En, De, Es, Unknown};
  }

  /** The tie check is implied by the share check: two halves are less than 66% each. */
  lemma WinnerIsTop(counts: Counts, ranking: seq<Language>)
    requires ranking == Sort(MoreVotes(counts), Filter(HasVotes(counts), HINTS)) && ranking != []
    requires forall l :: l in ranking <==> HasVotes(counts)(l)
    ensures Winner(counts) == if Dominates(CountsOf(counts), ranking[0]) then ranking[0] else Unknown
  {
    KnownSum(counts);
    KnownPositive(counts, Filter(HasVotes(counts), HINTS));
    assert ranking[0] in ranking;
    ShareIsProduct(Count(counts, ranking[0]), Known(CountsOf(counts)), 66);
    if |ranking| > 1 {
      RankingSecond(counts, ranking);
      assert ranking[1] in ranking;
      TwoOf(counts, ranking[0], ranking[1]);
    }
  }

  lemma WinnerExact(counts: Counts, l: Language)
    requires l != Unknown
    ensures Winner(counts) == l <==> Dominates(CountsOf(counts), l)
  {
    var ranking := Sort(MoreVotes(counts), Filter(HasVotes(counts), HINTS));
    RankingTop(counts);
    if ranking == [] {
      assert !HasVotes(counts)(Ru) && !HasVotes(counts)(En) && !HasVotes(counts)(De) && !HasVotes(counts)(Es);
    } else {
      WinnerIsTop(counts, ranking);
      assert ranking[0] in ranking;
      assert ranking[0] != Unknown;
      if l != ranking[0] {
        TwoOf(counts, l, ranking[0]);
      }
    }
  }

  lemma TallySnoc(counts: Counts, values: seq<Signals>, i: nat)
    requires i < |values| && Tally(counts, values[..i])
    ensures Tally(counts[Detect(values[i]) := Count(counts, Detect(values[i])) + 1], values[..i + 1])
  {
    var hint := Detect(values[i]);
    var counts', prefix := counts[hint := Count(counts, hint) + 1], values[..i + 1];
    assert prefix[..i] == values[..i];
    forall l ensures Count(counts', l) == Votes(prefix, l) {
      assert Count(counts, l) == Votes(values[..i], l);
    }
  }

  /** `dominant_language`: the language with at least 66% of the votes that name one. */
  method DominantLanguage(values: seq<Signals>) returns (r: Language)
    ensures forall l :: l != Unknown ==> (r == l <==> Dominates(VotesOf(values), l))
  {
    var counts: Counts := map[Ru := 0, En := 0, De := 0, Es := 0, Unknown := 0];
    for i := 0 to |values|
      invariant Tally(counts, values[..i])
    {
      TallySnoc(counts, values, i);
      var hint := Detect(values[i]);
      counts := counts[hint := Count(counts, hint) + 1];
    }
    assert values[..|values|] == values;
    r := Winner(counts);
    forall l | l != Unknown ensures r == l <==> Dominates(VotesOf(values), l) {
      WinnerExact(counts, l);
    }
  }

  // ----- order -----

  lemma {:induction false} VotesConcat(xs: seq<Signals>, ys: seq<Signals>, l: Language)
    ensures Votes(xs + ys, l) == Votes(xs, l) + Votes(ys, l)
  {
    if ys == [] {
      assert xs + ys == xs;
    } else {
      assert (xs + ys)[..|xs + ys| - 1] == xs + ys[..|ys| - 1];
      VotesConcat(xs, ys[..|ys| - 1], l);
    }
  }

  function Without(ys: seq<Signals>, k: nat): seq<Signals>
    requires k < |ys|
  {
    ys[..k] + ys[k + 1..]
  }

  lemma VotesWithout(ys: seq<Signals>, k: nat, l: Language)
    requires k < |ys|
    ensures Votes(ys, l) == Votes(Without(ys, k), l) + if Detect(ys[k]) == l then 1 else 0
  {
    var front, back := ys[..k], ys[k + 1..];
    assert ys == ys[..k + 1] + back && ys[..k + 1][..k] == front;
    VotesConcat(ys[..k + 1], back, l);
    VotesConcat(front, back, l);
  }

  lemma MultisetWithout(ys: seq<Signals>, k: nat)
    requires k < |ys|
    ensures multiset(Without(ys, k)) == multiset(ys) - multiset{ys[k]}
  {
    assert ys == ys[..k] + [ys[k]] + ys[k + 1..];
  }

  lemma {:induction false} VotesPermuted(xs: seq<Signals>, ys: seq<Signals>, l: Language)
    requires multiset(xs) == multiset(ys)
    ensures Votes(xs, l) == Votes(ys, l)
    decreases |xs|
  {
    if xs == [] {
      assert |ys| == |multiset(ys)| == |xs|;
    } else {
      assert xs[0] in multiset(ys);
      var k :| 0 <= k < |ys| && ys[k] == xs[0];
      MultisetWithout(xs, 0);
      MultisetWithout(ys, k);
      VotesPermuted(Without(xs, 0), Without(ys, k), l);
      VotesWithout(xs, 0, l);
      VotesWithout(ys, k, l);
    }
  }

  /** The vote does not depend on the order of the texts. */
  lemma DominanceOrderFree(xs: seq<Signals>, ys: seq<Signals>, l: Language)
    requires multiset(xs) == multiset(ys)
    ensures Dominates(VotesOf(xs), l) == Dominates(VotesOf(ys), l)
  {
    VotesPermuted(xs, ys, l);
    VotesPermuted(xs, ys, Ru);
    VotesPermuted(xs, ys, En);
    VotesPermuted(xs, ys, De);
    VotesPermuted(xs, ys, Es);
  }
}
