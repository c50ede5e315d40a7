/** What the models share: optional values and Python's comprehensions over lists. */
module Seqs {

  datatype Option<+T> = None | Some(value: T)

  /** `[f(x) for x in xs]` */
  function Map<A, B>(f: A -> B, xs: seq<A>): (r: seq<B>)
    ensures |r| == |xs|
    ensures forall i :: 0 <= i < |xs| ==> r[i] == f(xs[i])
  {
    if xs == [] then [] else [f(xs[0])] + Map(f, xs[1..])
  }

  lemma {:induction false} MapConcat<A, B>(f: A -> B, xs: seq<A>, ys: seq<A>)
    ensures Map(f, xs + ys) == Map(f, xs) + Map(f, ys)
  {
  }

  lemma {:induction false} MapInit<A, B>(f: A -> B, xs: seq<A>)
    requires xs != []
    ensures Map(f, xs) == Map(f, xs[..|xs| - 1]) + [f(xs[|xs| - 1])]
  {
  }

  lemma {:induction false} Associate<T>(a: seq<T>, b: seq<T>, c: seq<T>)
    ensures a + (b + c) == a + b + c
  {
  }

  lemma {:induction false} Reassociate<T>(a: seq<T>, b: seq<T>, c: seq<T>, d: seq<T>)
    ensures a + (b + c + d) == a + b + (c + d) == a + b + c + d
  {
  }

  lemma SnocInjective<T>(a: seq<T>, b: seq<T>, x: T)
    ensures a + [x] == b + [x] <==> a == b
  {
    assert (a + [x])[..|a|] == a && (b + [x])[..|b|] == b;
  }

  /** `[x for x in xs if p(x)]` */
  function Filter<A>(p: A -> bool, xs: seq<A>): (r: seq<A>)
    ensures |r| <= |xs|
  {
    if xs == [] then [] else if p(xs[0]) then [xs[0]] + Filter(p, xs[1..]) else Filter(p, xs[1..])
  }

  lemma {:induction false} FilterMember<A>(p: A -> bool, xs: seq<A>, x: A)
    ensures x in Filter(p, xs) <==> x in xs && p(x)
  {
    if xs != [] {
      FilterMember(p, xs[1..], x);
      assert x in xs <==> x == xs[0] || x in xs[1..];
    }
  }

  lemma {:induction false} FilterConcat<A>(p: A -> bool, xs: seq<A>, ys: seq<A>)
    ensures Filter(p, xs + ys) == Filter(p, xs) + Filter(p, ys)
  {
    if xs == [] {
      assert xs + ys == ys;
    } else {
      assert (xs + ys)[1..] == xs[1..] + ys;
      FilterConcat(p, xs[1..], ys);
    }
  }

  /** `[f(x) for x in xs if p(x)]` grows at its end. */
  lemma MapFilterSnoc<A, B>(f: A -> B, p: A -> bool, xs: seq<A>, x: A)
    ensures Map(f, Filter(p, xs + [x])) == Map(f, Filter(p, xs)) + if p(x) then [f(x)] else []
  {
    FilterConcat(p, xs, [x]);
    MapConcat(f, Filter(p, xs), [x]);
    assert Map(f, [x]) == [f(x)];
  }

  predicate NoRepeats<T(==)>(xs: seq<T>) {
    forall i, j :: 0 <= i < j < |xs| ==> xs[i] != xs[j]
  }

  lemma {:induction false} FilterEmpty<A>(p: A -> bool, xs: seq<A>)
    ensures Filter(p, xs) == [] <==> forall x :: x in xs ==> !p(x)
  {
    if Filter(p, xs) != [] {
      FilterMember(p, xs, Filter(p, xs)[0]);
    }
    forall x | x in xs && p(x) ensures Filter(p, xs) != [] {
      FilterMember(p, xs, x);
    }
  }

  lemma {:induction false} FilterSame<A>(p: A -> bool, q: A -> bool, xs: seq<A>)
    requires forall x :: x in xs ==> p(x) == q(x)
    ensures Filter(p, xs) == Filter(q, xs)
  {
    if xs != [] {
      assert xs[0] in xs;
      FilterSame(p, q, xs[1..]);
    }
  }

  lemma {:induction false} FilterAll<A>(p: A -> bool, xs: seq<A>)
    requires forall x :: x in xs ==> p(x)
    ensures Filter(p, xs) == xs
  {
    if xs != [] {
      assert xs[0] in xs;
      FilterAll(p, xs[1..]);
    }
  }

  lemma {:induction false} FilterCount<A>(p: A -> bool, xs: seq<A>, x: A)
    ensures multiset(Filter(p, xs))[x] == if p(x) then multiset(xs)[x] else 0
  {
    if xs != [] {
      assert xs == [xs[0]] + xs[1..];
      FilterCount(p, xs[1..], x);
    }
  }

  lemma SubsetSize<T>(xs: set<T>, ys: set<T>)
    requires xs <= ys
    ensures |xs| <= |ys|
  {
    assert ys == xs + (ys - xs);
  }

  /** A set has several elements exactly when two of them differ. */
  lemma SeveralElements<T>(xs: set<T>)
    ensures |xs| > 1 <==> exists x, y :: x in xs && y in xs && x != y
  {
    if |xs| > 1 {
      var x :| x in xs;
      var rest := xs - {x};
      assert |rest| > 0;
      var y :| y in rest;
      assert x in xs && y in xs && x != y;
    }
    forall x, y | x in xs && y in xs && x != y ensures |xs| > 1 {
      assert {x, y} <= xs && |{x, y}| == 2;
      SubsetSize({x, y}, xs);
    }
  }

  // ----- selection by position -----

  /** `at` lists, in order, the positions of `xs` at which `p` holds, and `ys` what stands there. */
  ghost predicate Picks<A>(p: A -> bool, xs: seq<A>, at: seq<nat>, ys: seq<A>) {
    && (forall a, b :: 0 <= a < b < |at| ==> at[a] < at[b])
    && (forall i :: i in at <==> 0 <= i < |xs| && p(xs[i]))
    && |ys| == |at| && forall a :: 0 <= a < |at| && at[a] < |xs| ==> ys[a] == xs[at[a]]
  }

  /** `ys` are the elements of `xs` with `p`, position by position: in order and with multiplicity. */
  ghost predicate Selects<A>(p: A -> bool, xs: seq<A>, ys: seq<A>) {
    exists at: seq<nat> :: Picks(p, xs, at, ys)
  }

  lemma PicksNext<A>(p: A -> bool, xs: seq<A>, at: seq<nat>, ys: seq<A>, x: A)
    requires Picks(p, xs, at, ys) && p(x)
    ensures Picks(p, xs + [x], at + [|xs|], ys + [x])
  {
    var at' := at + [|xs|];
    forall a | 0 <= a < |at| ensures at[a] < |xs| {
      assert at[a] in at;
    }
    forall i ensures i in at' <==> 0 <= i < |xs + [x]| && p((xs + [x])[i]) {
      assert i in at' <==> i in at || i == |xs|;
    }
  }

  lemma PicksSkip<A>(p: A -> bool, xs: seq<A>, at: seq<nat>, ys: seq<A>, x: A)
    requires Picks(p, xs, at, ys) && !p(x)
    ensures Picks(p, xs + [x], at, ys)
  {
    forall a | 0 <= a < |at| ensures at[a] < |xs| {
      assert at[a] in at;
    }
  }

  lemma {:induction false} FilterPicks<A>(p: A -> bool, xs: seq<A>) returns (at: seq<nat>)
    ensures Picks(p, xs, at, Filter(p, xs))
  {
    if xs == [] {
      at := [];
    } else {
      var init, last := xs[..|xs| - 1], xs[|xs| - 1];
      FilterConcat(p, init, [last]);
      assert xs == init + [last];
      at := FilterPicks(p, init);
      if p(last) {
        PicksNext(p, init, at, Filter(p, init), last);
        at := at + [|init|];
      } else {
        PicksSkip(p, init, at, Filter(p, init), last);
      }
    }
  }

  lemma PicksFirst<A>(p: A -> bool, xs: seq<A>, at: seq<nat>, ys: seq<A>)
    requires Picks(p, xs, at, ys) && at != []
    ensures forall i :: i in at ==> at[0] <= i
  {
    forall i | i in at ensures at[0] <= i {
      var a :| 0 <= a < |at| && at[a] == i;
      assert a > 0 ==> at[0] < at[a];
    }
  }

  /** A comprehension selects by position. */
  lemma FilterSelects<A>(p: A -> bool, xs: seq<A>)
    ensures Selects(p, xs, Filter(p, xs))
  {
    var at := FilterPicks(p, xs);
  }

  /** Nothing is selected exactly without a position, and several exactly with two. */
  lemma SelectionSize<A>(p: A -> bool, xs: seq<A>, ys: seq<A>)
    requires Selects(p, xs, ys)
    ensures ys == [] <==> forall i :: 0 <= i < |xs| ==> !p(xs[i])
    ensures |ys| > 1 <==> exists i, j :: 0 <= i < j < |xs| && p(xs[i]) && p(xs[j])
  {
    var at: seq<nat> :| Picks(p, xs, at, ys);
    if ys != [] {
      assert at[0] in at;
    }
    if |ys| > 1 {
      assert at[0] in at && at[1] in at && at[0] < at[1];
    }
    forall i | 0 <= i < |xs| && p(xs[i]) ensures ys != [] {
      assert i in at;
    }
    forall i, j | 0 <= i < j < |xs| && p(xs[i]) && p(xs[j]) ensures |ys| > 1 {
      assert i in at && j in at;
    }
  }

  /** `p` holds at position `i` and nowhere else. */
  ghost predicate Only<A>(p: A -> bool, xs: seq<A>, i: nat) {
    i < |xs| && p(xs[i]) && forall j: nat :: j < |xs| && p(xs[j]) ==> j == i
  }

  /** One element is selected exactly from one position. */
  lemma SelectionOne<A>(p: A -> bool, xs: seq<A>, ys: seq<A>)
    requires Selects(p, xs, ys)
    ensures |ys| == 1 ==> exists i: nat :: Only(p, xs, i)
    ensures forall i: nat :: Only(p, xs, i) ==> ys == [xs[i]]
  {
    var at: seq<nat> :| Picks(p, xs, at, ys);
    if |ys| == 1 {
      assert at[0] in at;
      forall j: nat | j < |xs| && p(xs[j]) ensures j == at[0] {
        assert j in at;
      }
      assert Only(p, xs, at[0]);
    }
    assert |at| > 1 ==> at[0] in at && at[1] in at && at[0] < at[1];
    assert at != [] ==> at[0] in at;
    forall i: nat | Only(p, xs, i) ensures ys == [xs[i]] {
      assert i in at;
    }
  }

  /** `[x for x in [x for x in xs if p(x)] if q(x)]` is `[x for x in xs if r(x)]` when `r` is both. */
  lemma {:induction false} FilterBoth<A(!new)>(p: A -> bool, q: A -> bool, r: A -> bool, xs: seq<A>)
    requires forall x :: r(x) == (p(x) && q(x))
    ensures Filter(q, Filter(p, xs)) == Filter(r, xs)
  {
    if xs != [] {
      FilterBoth(p, q, r, xs[1..]);
      if p(xs[0]) {
        assert ([xs[0]] + Filter(p, xs[1..]))[1..] == Filter(p, xs[1..]);
      }
    }
  }

  /** `[y for y in [f(x) for x in xs] if p(y)]` is `[f(x) for x in xs if r(x)]` when `r` is `p` after `f`. */
  lemma {:induction false} FilterOfMap<A(!new), B>(f: A -> B, p: B -> bool, r: A -> bool, xs: seq<A>)
    requires forall x :: r(x) == p(f(x))
    ensures Filter(p, Map(f, xs)) == Map(f, Filter(r, xs))
  {
    if xs != [] {
      FilterOfMap(f, p, r, xs[1..]);
      assert Map(f, xs)[1..] == Map(f, xs[1..]);
      if r(xs[0]) {
        assert ([xs[0]] + Filter(r, xs[1..]))[1..] == Filter(r, xs[1..]);
      }
    }
  }
}
