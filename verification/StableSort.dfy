/** `sorted(xs, key=..., reverse=True)`: descending, equal keys in their original order. */
module StableSort {
  import opened Seqs

  /** `geq(x, y)`: the key of x is at least the key of y. */
  ghost predicate TotalPreorder<T(!new)>(geq: (T, T) -> bool) {
    && (forall x, y :: geq(x, y) || geq(y, x))
    && (forall x, y, z :: geq(x, y) && geq(y, z) ==> geq(x, z))
  }

  function Insert<T>(geq: (T, T) -> bool, x: T, xs: seq<T>): seq<T> {
    if xs == [] then [x] else if geq(x, xs[0]) then [x] + xs else [xs[0]] + Insert(geq, x, xs[1..])
  }

  function Sort<T>(geq: (T, T) -> bool, xs: seq<T>): seq<T> {
    if xs == [] then [] else Insert(geq, xs[0], Sort(geq, xs[1..]))
  }

  predicate Descending<T>(geq: (T, T) -> bool, xs: seq<T>) {
    forall i, j :: 0 <= i < j < |xs| ==> geq(xs[i], xs[j])
  }

  /** Equal keys. */
  function Ties<T>(geq: (T, T) -> bool, x: T): T -> bool {
    y => geq(x, y) && geq(y, x)
  }

  /** The same elements with equal keys in the same order. */
  ghost predicate SameClasses<T(!new)>(geq: (T, T) -> bool, xs: seq<T>, ys: seq<T>) {
    forall x :: Filter(Ties(geq, x), xs) == Filter(Ties(geq, x), ys)
  }

  lemma {:induction false} InsertMember<T>(geq: (T, T) -> bool, x: T, xs: seq<T>, y: T)
    ensures y in Insert(geq, x, xs) <==> y == x || y in xs
  {
    if xs != [] && !geq(x, xs[0]) {
      InsertMember(geq, x, xs[1..], y);
      assert y in xs <==> y == xs[0] || y in xs[1..];
    }
  }

  lemma {:induction false} InsertDescending<T(!new)>(geq: (T, T) -> bool, x: T, xs: seq<T>)
    requires TotalPreorder(geq) && Descending(geq, xs)
    ensures Descending(geq, Insert(geq, x, xs))
  {
    if xs == [] {
    } else if geq(x, xs[0]) {
      var r := [x] + xs;
      forall j | 0 < j < |r| ensures geq(x, r[j]) {
        if j > 1 {
          assert geq(xs[0], xs[j - 1]);
        }
      }
      assert forall i, j :: 0 < i < j < |r| ==> r[i] == xs[i - 1] && r[j] == xs[j - 1];
    } else {
      InsertDescending(geq, x, xs[1..]);
      var rest := Insert(geq, x, xs[1..]);
      forall j | 0 <= j < |rest| ensures geq(xs[0], rest[j]) {
        InsertMember(geq, x, xs[1..], rest[j]);
      }
    }
  }

  lemma {:induction false} InsertStable<T(!new)>(geq: (T, T) -> bool, x: T, xs: seq<T>, c: T)
    requires TotalPreorder(geq)
    ensures Filter(Ties(geq, c), Insert(geq, x, xs)) == Filter(Ties(geq, c), [x] + xs)
  {
    if xs != [] && !geq(x, xs[0]) {
      InsertStable(geq, x, xs[1..], c);
      var p := Ties(geq, c);
      assert !(p(x) && p(xs[0]));
      assert ([x] + xs)[1..] == xs && ([x] + xs[1..])[1..] == xs[1..];
    }
  }

  lemma {:induction false} InsertPermutes<T>(geq: (T, T) -> bool, x: T, xs: seq<T>)
    ensures multiset(Insert(geq, x, xs)) == multiset{x} + multiset(xs)
  {
    if xs != [] {
      assert xs == [xs[0]] + xs[1..];
      if !geq(x, xs[0]) {
        InsertPermutes(geq, x, xs[1..]);
      }
    }
  }

  /** Sorting gives a stable, descending permutation. */
  lemma {:induction false} SortCorrect<T(!new)>(geq: (T, T) -> bool, xs: seq<T>)
    requires TotalPreorder(geq)
    ensures Descending(geq, Sort(geq, xs)) && SameClasses(geq, Sort(geq, xs), xs)
    ensures multiset(Sort(geq, xs)) == multiset(xs)
  {
    if xs != [] {
      SortCorrect(geq, xs[1..]);
      var rest := Sort(geq, xs[1..]);
      InsertDescending(geq, xs[0], rest);
      InsertPermutes(geq, xs[0], rest);
      assert xs == [xs[0]] + xs[1..];
      forall c ensures Filter(Ties(geq, c), Sort(geq, xs)) == Filter(Ties(geq, c), xs) {
        InsertStable(geq, xs[0], rest, c);
        assert ([xs[0]] + rest)[1..] == rest;
      }
    }
  }

  lemma SortMember<T(!new)>(geq: (T, T) -> bool, xs: seq<T>, x: T)
    requires TotalPreorder(geq)
    ensures x in Sort(geq, xs) <==> x in xs
  {
    SortCorrect(geq, xs);
    assert x in xs <==> x in multiset(xs);
    assert x in Sort(geq, xs) <==> x in multiset(Sort(geq, xs));
  }

  lemma ClassMember<T(!new)>(geq: (T, T) -> bool, xs: seq<T>, ys: seq<T>, x: T)
    requires TotalPreorder(geq) && SameClasses(geq, xs, ys)
    ensures x in xs <==> x in ys
  {
    FilterMember(Ties(geq, x), xs, x);
    FilterMember(Ties(geq, x), ys, x);
    assert Filter(Ties(geq, x), xs) == Filter(Ties(geq, x), ys);
  }

  /** There is only one stable descending arrangement. */
  lemma {:induction false} StableSortUnique<T(!new)>(geq: (T, T) -> bool, xs: seq<T>, ys: seq<T>)
    requires TotalPreorder(geq) && Descending(geq, xs) && Descending(geq, ys) && SameClasses(geq, xs, ys)
    ensures xs == ys
    decreases |xs|
  {
    if xs == [] || ys == [] {
      if xs != [] {
        ClassMember(geq, xs, ys, xs[0]);
      }
      if ys != [] {
        ClassMember(geq, xs, ys, ys[0]);
      }
    } else {
      HeadsTie(geq, xs, ys);
      var p := Ties(geq, xs[0]);
      assert Filter(p, xs) == Filter(p, ys);
      assert xs[0] == Filter(p, xs)[0] && ys[0] == Filter(p, ys)[0];
      forall x ensures Filter(Ties(geq, x), xs[1..]) == Filter(Ties(geq, x), ys[1..]) {
        var q := Ties(geq, x);
        assert Filter(q, xs) == Filter(q, ys);
        if q(xs[0]) {
          assert Filter(q, xs)[1..] == Filter(q, xs[1..]) && Filter(q, ys)[1..] == Filter(q, ys[1..]);
        }
      }
      StableSortUnique(geq, xs[1..], ys[1..]);
      assert xs == [xs[0]] + xs[1..] && ys == [ys[0]] + ys[1..];
    }
  }

  lemma HeadsTie<T(!new)>(geq: (T, T) -> bool, xs: seq<T>, ys: seq<T>)
    requires TotalPreorder(geq) && Descending(geq, xs) && Descending(geq, ys) && SameClasses(geq, xs, ys)
    requires xs != [] && ys != []
    ensures geq(xs[0], ys[0]) && geq(ys[0], xs[0])
  {
    ClassMember(geq, xs, ys, xs[0]);
    ClassMember(geq, xs, ys, ys[0]);
    var i :| 0 <= i < |ys| && ys[i] == xs[0];
    var j :| 0 <= j < |xs| && xs[j] == ys[0];
    assert i > 0 ==> geq(ys[0], ys[i]);
    assert j > 0 ==> geq(xs[0], xs[j]);
  }
}
