/** Sorted lists of integers and the sets they hold. */
module IntLists {

  ghost predicate Nondecreasing(xs: seq<int>) {
    forall i, j :: 0 <= i < j < |xs| ==> xs[i] <= xs[j]
  }

  ghost predicate Ascending(xs: seq<int>) {
    forall i, j :: 0 <= i < j < |xs| ==> xs[i] < xs[j]
  }

  ghost predicate Distinct(xs: seq<int>) {
    forall i, j :: 0 <= i < j < |xs| ==> xs[i] != xs[j]
  }

  function Elements(xs: seq<int>): (s: set<int>) {
    set x | x in xs
  }

  // ---------------------------------------------------------------- sorting a list

  function Insert(x: int, xs: seq<int>): (ys: seq<int>)
    ensures |ys| == |xs| + 1 && multiset(ys) == multiset(xs) + multiset{x}
  {
    if xs == [] || x <= xs[0] then [x] + xs
    else assert xs == [xs[0]] + xs[1..]; [xs[0]] + Insert(x, xs[1..])
  }

  /** slices.Sort and sort.Ints, as a function of the old contents. */
  function Sort(xs: seq<int>): (ys: seq<int>)
    ensures |ys| == |xs| && multiset(ys) == multiset(xs)
  {
    if xs == [] then [] else assert xs == [xs[0]] + xs[1..]; Insert(xs[0], Sort(xs[1..]))
  }

  lemma {:induction false} InsertSorted(x: int, xs: seq<int>)
    requires Nondecreasing(xs)
    ensures Nondecreasing(Insert(x, xs))
  {
    if xs != [] && xs[0] < x {
      InsertSorted(x, xs[1..]);
      var ys := Insert(x, xs[1..]);
      forall i | 0 <= i < |ys| ensures xs[0] <= ys[i] {
        assert ys[i] in multiset(ys);
        assert ys[i] == x || ys[i] in xs[1..];
      }
    }
  }

  lemma {:induction false} SortSorted(xs: seq<int>)
    ensures Nondecreasing(Sort(xs))
  {
    if xs != [] {
      SortSorted(xs[1..]);
      InsertSorted(xs[0], Sort(xs[1..]));
    }
  }

  lemma SortElements(xs: seq<int>)
    ensures Elements(Sort(xs)) == Elements(xs)
  {
    hide Sort;
    assert forall x :: x in xs <==> x in multiset(xs);
    assert forall x :: x in Sort(xs) <==> x in multiset(Sort(xs));
  }

  lemma {:induction false} DistinctCount(xs: seq<int>)
    ensures Distinct(xs) <==> forall x :: x in multiset(xs) ==> multiset(xs)[x] == 1
    decreases |xs|
  {
    if xs != [] {
      var n := |xs| - 1;
      DistinctCount(xs[..n]);
      assert xs == xs[..n] + [xs[n]];
      if Distinct(xs) {
        assert xs[n] !in xs[..n];
        assert xs[n] !in multiset(xs[..n]);
      }
      if forall x :: x in multiset(xs) ==> multiset(xs)[x] == 1 {
        assert multiset(xs)[xs[n]] == 1;
        assert xs[n] !in xs[..n];
        forall x | x in multiset(xs[..n]) ensures multiset(xs[..n])[x] == 1 {
          assert x in multiset(xs);
        }
      }
    }
  }

  lemma SortDistinct(xs: seq<int>)
    requires Distinct(xs)
    ensures Ascending(Sort(xs))
  {
    hide Sort;
    SortSorted(xs);
    DistinctCount(xs);
    DistinctCount(Sort(xs));
  }

  // ---------------------------------------------------------------- the ascending list of a set

  ghost predicate IsMax(m: int, s: set<int>) {
    m in s && forall x :: x in s ==> x <= m
  }

  lemma EmptyOrNot(s: set<int>)
    ensures s == {} || exists y :: y in s
  {
    if forall y :: y !in s { assert s == {}; }
  }

  lemma SetHasMax(s: set<int>) returns (m: int)
    requires s != {}
    ensures IsMax(m, s)
    decreases |s|
  {
    EmptyOrNot(s);
    var y :| y in s;
    var rest := s - {y};
    assert s == rest + {y};
    if rest == {} {
      m := y;
    } else {
      m := SetHasMax(rest);
      if m < y { m := y; }
    }
  }

  ghost function Max(s: set<int>): (m: int)
    requires s != {}
    ensures IsMax(m, s)
  {
    assert exists m :: IsMax(m, s) by { var m := SetHasMax(s); }
    var m :| IsMax(m, s);
    m
  }

  ghost function Listed(s: set<int>): (xs: seq<int>)
    ensures Ascending(xs) && Elements(xs) == s
    decreases |s|
  {
    if s == {} then []
    else
      var m := Max(s);
      var xs := Listed(s - {m});
      AppendMax(xs, m, s);
      xs + [m]
  }

  lemma AppendMax(xs: seq<int>, m: int, s: set<int>)
    requires Ascending(xs) && IsMax(m, s) && Elements(xs) == s - {m}
    ensures Ascending(xs + [m]) && Elements(xs + [m]) == s
  {
    forall i | 0 <= i < |xs| ensures xs[i] < m {
      assert xs[i] in Elements(xs);
    }
    assert Elements(xs + [m]) == Elements(xs) + {m};
  }

  /** An ascending list is determined by its elements. */
  lemma {:induction false} AscendingUnique(xs: seq<int>, ys: seq<int>)
    requires Ascending(xs) && Ascending(ys) && Elements(xs) == Elements(ys)
    ensures xs == ys
    decreases |xs|
  {
    if xs == [] {
      assert forall i :: 0 <= i < |ys| ==> ys[i] in Elements(ys);
    } else {
      var m, n := |xs| - 1, |ys| - 1;
      assert xs[m] in Elements(xs) && xs[m] in ys;
      assert ys[n] in Elements(ys) && ys[n] in xs;
      assert xs[m] == ys[n];
      DropLast(xs);
      DropLast(ys);
      AscendingUnique(xs[..m], ys[..n]);
      assert xs == xs[..m] + [xs[m]] && ys == ys[..n] + [ys[n]];
    }
  }

  lemma DropLast(xs: seq<int>)
    requires Ascending(xs) && xs != []
    ensures var n := |xs| - 1; Ascending(xs[..n]) && Elements(xs[..n]) == Elements(xs) - {xs[n]}
  {
    var n := |xs| - 1;
    assert xs == xs[..n] + [xs[n]];
    assert xs[n] !in xs[..n];
  }

  lemma ListedOf(xs: seq<int>)
    requires Distinct(xs)
    ensures Sort(xs) == Listed(Elements(xs))
  {
    hide Sort, Listed;
    SortDistinct(xs);
    SortElements(xs);
    AscendingUnique(Sort(xs), Listed(Elements(xs)));
  }

  lemma AscendingListed(xs: seq<int>)
    requires Ascending(xs)
    ensures xs == Listed(Elements(xs)) && Sort(xs) == xs
  {
    hide Sort, Listed;
    AscendingUnique(xs, Listed(Elements(xs)));
    ListedOf(xs);
  }

  lemma {:induction false} DistinctSize(xs: seq<int>)
    ensures |Elements(xs)| <= |xs|
    ensures Distinct(xs) ==> |Elements(xs)| == |xs|
    decreases |xs|
  {
    if xs != [] {
      var n := |xs| - 1;
      DistinctSize(xs[..n]);
      assert xs == xs[..n] + [xs[n]];
      assert Elements(xs) == Elements(xs[..n]) + {xs[n]};
      if Distinct(xs) { assert xs[n] !in xs[..n]; }
    }
  }
}
