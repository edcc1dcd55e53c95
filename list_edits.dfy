/**
 * Editing a list by position, as the settings panels' list models do it:
 * removing positions one after another, keeping some positions only, and
 * appending the chosen items that are not yet present.
 */
module ListEdits {
  import opened Ordering
  import Strings

  /** The list with position `k` taken out. */
  function RemoveOne<T>(s: seq<T>, k: int): seq<T>
    requires 0 <= k < |s|
  {
    s[..k] + s[k + 1..]
  }

  /** Every index of `order` is a valid position at the moment it is removed. */
  predicate RemovableInOrder<T>(s: seq<T>, order: seq<int>)
    decreases |order|
  {
    order == [] || (0 <= order[0] < |s| && RemovableInOrder(RemoveOne(s, order[0]), order[1..]))
  }

  /** What is left of a list and what was taken out of it, in removal order. */
  datatype Removal<T> = Removal(remaining: seq<T>, removed: seq<T>)

  /**
   * Removes the positions of `order` one after another, each counted in the
   * list as it is at that moment (`MutableList.removeAt` in a loop).
   */
  function RemoveEach<T>(s: seq<T>, order: seq<int>): (r: Removal<T>)
    requires RemovableInOrder(s, order)
    ensures |r.removed| == |order|
    ensures |r.remaining| + |r.removed| == |s|
    decreases |order|
  {
    if order == [] then Removal(s, [])
    else
      var k := order[0];
      var rest := RemoveEach(RemoveOne(s, k), order[1..]);
      Removal(rest.remaining, [s[k]] + rest.removed)
  }

  /**
   * Removing the first position and then the rest: what remains is what the
   * rest leaves, and the first removed item, after any already removed ones,
   * precedes what the rest removes.
   */
  lemma RemoveEachStep<T>(s: seq<T>, order: seq<int>, removed: seq<T>)
    requires RemovableInOrder(s, order) && order != []
    ensures RemovableInOrder(RemoveOne(s, order[0]), order[1..])
    ensures RemoveEach(s, order).remaining == RemoveEach(RemoveOne(s, order[0]), order[1..]).remaining
    ensures removed + RemoveEach(s, order).removed
         == (removed + [s[order[0]]]) + RemoveEach(RemoveOne(s, order[0]), order[1..]).removed
  {
    var rest := RemoveEach(RemoveOne(s, order[0]), order[1..]);
    Strings.AppendAssoc(removed, [s[order[0]]], rest.removed);
  }

  /** Nothing is lost or made up: what remains and what was removed make up the list. */
  lemma {:induction false} RemoveEachConserves<T>(s: seq<T>, order: seq<int>)
    requires RemovableInOrder(s, order)
    ensures multiset(RemoveEach(s, order).remaining) + multiset(RemoveEach(s, order).removed) == multiset(s)
    decreases |order|
  {
    if order != [] {
      var k := order[0];
      var s' := RemoveOne(s, k);
      RemoveEachConserves(s', order[1..]);
      var rest := RemoveEach(s', order[1..]);
      RemoveOneMultiset(s, k);
      assert multiset([s[k]] + rest.removed) == multiset{s[k]} + multiset(rest.removed);
    }
  }

  lemma RemoveOneMultiset<T>(s: seq<T>, k: int)
    requires 0 <= k < |s|
    ensures multiset(RemoveOne(s, k)) + multiset{s[k]} == multiset(s)
  {
    assert s == s[..k] + [s[k]] + s[k + 1..];
  }

  /** The list without the positions in `positions`, the others kept in order. */
  function Without<T>(s: seq<T>, positions: set<int>): seq<T>
    decreases |s|
  {
    if s == [] then []
    else Without(s[..|s| - 1], positions) + (if |s| - 1 in positions then [] else [s[|s| - 1]])
  }

  /** The set of indices a list of indices holds. */
  function Elements(order: seq<int>): set<int>
  {
    set i | 0 <= i < |order| :: order[i]
  }

  /** `s.reversed()`. */
  function Reverse<T>(s: seq<T>): (r: seq<T>)
    ensures |r| == |s|
    ensures forall i :: 0 <= i < |s| ==> r[i] == s[|s| - 1 - i]
    decreases |s|
  {
    if s == [] then [] else [s[|s| - 1]] + Reverse(s[..|s| - 1])
  }

  /** `sortedDescending()` on indices. */
  function DescendingIndices(indices: seq<int>): (r: seq<int>)
    ensures multiset(r) == multiset(indices)
    ensures |r| == |indices|
    ensures forall i, j :: 0 <= i < j < |r| ==> r[j] <= r[i]
  {
    IntLeIsTotalPreorder();
    var r := SortDescending(indices, IntLe);
    assert forall i, j :: 0 <= i < j < |r| ==> IntLe(r[j], r[i]);
    r
  }

  predicate Distinct<T(==)>(s: seq<T>)
  {
    forall i, j :: 0 <= i < j < |s| ==> s[i] != s[j]
  }

  predicate ValidPositions<T>(s: seq<T>, order: seq<int>)
  {
    forall i :: 0 <= i < |order| ==> 0 <= order[i] < |s|
  }

  // ---------------------------------------------------------------------
  // Facts about Without
  // ---------------------------------------------------------------------

  /** A position is dropped or kept according to the set; nothing else matters. */
  lemma {:induction false} WithoutSameOn<T>(s: seq<T>, a: set<int>, b: set<int>)
    requires forall i :: 0 <= i < |s| ==> (i in a <==> i in b)
    ensures Without(s, a) == Without(s, b)
    decreases |s|
  {
    if s != [] {
      WithoutSameOn(s[..|s| - 1], a, b);
    }
  }

  /** Positions past a prefix that the set leaves alone are all kept. */
  lemma {:induction false} WithoutAppend<T>(a: seq<T>, b: seq<T>, positions: set<int>)
    requires forall i :: |a| <= i < |a| + |b| ==> i !in positions
    ensures Without(a + b, positions) == Without(a, positions) + b
    decreases |b|
  {
    if b != [] {
      var b' := b[..|b| - 1];
      var n := |a + b|;
      assert (a + b)[..n - 1] == a + b';
      assert (a + b)[n - 1] == b[|b| - 1];
      assert n - 1 !in positions;
      assert Without(a + b, positions) == Without(a + b', positions) + [b[|b| - 1]];
      WithoutAppend(a, b', positions);
      assert b == b' + [b[|b| - 1]];
      assert (Without(a, positions) + b') + [b[|b| - 1]] == Without(a, positions) + (b' + [b[|b| - 1]]);
    } else {
      assert a + b == a;
    }
  }

  /** With an empty set of positions the list is kept whole. */
  lemma {:induction false} WithoutNothing<T>(s: seq<T>)
    ensures Without(s, {}) == s
    decreases |s|
  {
    if s != [] {
      WithoutNothing(s[..|s| - 1]);
      assert s == s[..|s| - 1] + [s[|s| - 1]];
    }
  }

  /** The elements kept are exactly those at positions outside the set. */
  lemma {:induction false} WithoutMembers<T>(s: seq<T>, positions: set<int>, x: T)
    ensures x in Without(s, positions) <==> exists j :: 0 <= j < |s| && j !in positions && s[j] == x
    decreases |s|
  {
    if s != [] {
      var n := |s| - 1;
      var p := s[..n];
      var last := if n in positions then [] else [s[n]];
      WithoutMembers(p, positions, x);
      InAppend(x, Without(p, positions), last);
      if exists j :: 0 <= j < |p| && j !in positions && p[j] == x {
        var j :| 0 <= j < |p| && j !in positions && p[j] == x;
        assert s[j] == p[j];
      }
      if exists j :: 0 <= j < |s| && j !in positions && s[j] == x {
        var j :| 0 <= j < |s| && j !in positions && s[j] == x;
        if j < n { assert p[j] == s[j]; }
      }
    }
  }

  lemma InAppend<T>(x: T, a: seq<T>, b: seq<T>)
    ensures x in a + b <==> x in a || x in b
  {
  }

  /** Taking out the last position of a set below `k`... is the same as leaving it out with the others. */
  lemma RemoveOneWithout<T>(s: seq<T>, k: int, positions: set<int>)
    requires 0 <= k < |s|
    requires forall i :: i in positions ==> i < k
    ensures Without(RemoveOne(s, k), positions) == Without(s, positions + {k})
  {
    var left := s[..k];
    var right := s[k + 1..];
    WithoutAppend(left, right, positions);
    assert s == s[..k + 1] + right;
    WithoutAppend(s[..k + 1], right, positions + {k});
    assert s[..k + 1][..k] == left;
    WithoutSameOn(left, positions + {k}, positions);
  }

  /**
   * Removing a strictly decreasing list of valid positions one after
   * another removes exactly those positions, keeps the rest in order and
   * hands back the removed elements in removal order.
   */
  lemma {:induction false} RemoveDecreasing<T>(s: seq<T>, order: seq<int>)
    requires forall i, j :: 0 <= i < j < |order| ==> order[j] < order[i]
    requires ValidPositions(s, order)
    ensures RemovableInOrder(s, order)
    ensures RemoveEach(s, order).remaining == Without(s, Elements(order))
    ensures forall j :: 0 <= j < |order| ==> RemoveEach(s, order).removed[j] == s[order[j]]
    decreases |order|
  {
    if order == [] {
      WithoutNothing(s);
      assert Elements(order) == {};
    } else {
      var k := order[0];
      var s' := RemoveOne(s, k);
      var order' := order[1..];
      assert forall i :: 0 <= i < |order'| ==> order'[i] == order[i + 1];
      RemoveDecreasing(s', order');
      ElementsCons(order);
      assert forall i :: i in Elements(order') ==> i < k;
      RemoveOneWithout(s, k, Elements(order'));
      var r := RemoveEach(s, order);
      var rest := RemoveEach(s', order');
      assert r.removed == [s[k]] + rest.removed;
      forall j | 0 <= j < |order| ensures r.removed[j] == s[order[j]] {
        if j > 0 {
          assert r.removed[j] == rest.removed[j - 1] == s'[order'[j - 1]];
          assert s'[order[j]] == s[order[j]];
        }
      }
    }
  }

  lemma ElementsCons(order: seq<int>)
    requires order != []
    ensures Elements(order) == Elements(order[1..]) + {order[0]}
  {
    forall x | x in Elements(order) ensures x in Elements(order[1..]) + {order[0]} {
      var i :| 0 <= i < |order| && order[i] == x;
      if i > 0 { assert order[1..][i - 1] == x; }
    }
  }

  // ---------------------------------------------------------------------
  // Distinct indices
  // ---------------------------------------------------------------------

  lemma {:induction false} DistinctCountsOnce<T>(s: seq<T>, x: T)
    requires Distinct(s)
    ensures multiset(s)[x] <= 1
    decreases |s|
  {
    if s != [] {
      assert s == [s[0]] + s[1..];
      assert Distinct(s[1..]) by {
        forall i, j | 0 <= i < j < |s[1..]| ensures s[1..][i] != s[1..][j] {
          assert s[1..][i] == s[i + 1] && s[1..][j] == s[j + 1];
        }
      }
      DistinctCountsOnce(s[1..], x);
      if x == s[0] {
        assert x !in s[1..] by {
          forall i | 0 <= i < |s[1..]| ensures s[1..][i] != x {
            assert s[1..][i] == s[i + 1];
          }
        }
      }
    }
  }

  lemma RepeatCountsTwice<T>(s: seq<T>, i: int, j: int)
    requires 0 <= i < j < |s| && s[i] == s[j]
    ensures multiset(s)[s[i]] >= 2
  {
    assert s == s[..j] + s[j..];
    assert s[i] in s[..j];
    assert s[j] in s[j..];
    assert multiset(s) == multiset(s[..j]) + multiset(s[j..]);
  }

  /** Sorting distinct indices descending gives a strictly decreasing list of the same indices. */
  lemma DescendingIndicesStrict(indices: seq<int>)
    requires Distinct(indices)
    ensures var r := DescendingIndices(indices);
      (forall i, j :: 0 <= i < j < |r| ==> r[j] < r[i]) && Elements(r) == Elements(indices)
  {
    var r := DescendingIndices(indices);
    forall i, j | 0 <= i < j < |r| ensures r[j] < r[i] {
      if r[j] == r[i] {
        RepeatCountsTwice(r, i, j);
        DistinctCountsOnce(indices, r[i]);
        assert false;
      }
    }
    forall x ensures x in Elements(r) <==> x in Elements(indices) {
      assert x in Elements(r) <==> x in multiset(r) by {
        if x in multiset(r) { var i :| 0 <= i < |r| && r[i] == x; }
      }
      assert x in Elements(indices) <==> x in multiset(indices) by {
        if x in multiset(indices) { var i :| 0 <= i < |indices| && indices[i] == x; }
      }
    }
  }

  /**
   * `sortedDescending().forEach { remove(it) }`: for distinct valid indices,
   * whatever their order, exactly those positions go.
   */
  lemma RemoveSortedDescending<T>(s: seq<T>, indices: seq<int>)
    requires Distinct(indices) && ValidPositions(s, indices)
    ensures RemovableInOrder(s, DescendingIndices(indices))
    ensures RemoveEach(s, DescendingIndices(indices)).remaining == Without(s, Elements(indices))
  {
    var r := DescendingIndices(indices);
    DescendingIndicesStrict(indices);
    forall i | 0 <= i < |r| ensures 0 <= r[i] < |s| {
      assert r[i] in multiset(indices);
      var j :| 0 <= j < |indices| && indices[j] == r[i];
    }
    RemoveDecreasing(s, r);
  }

  /**
   * `indices.reversed()` then `removeAt` each: for ascending valid indices,
   * exactly those positions go and the removed elements come highest first.
   */
  lemma RemoveReversedAscending<T>(s: seq<T>, indices: seq<int>)
    requires forall i, j :: 0 <= i < j < |indices| ==> indices[i] < indices[j]
    requires ValidPositions(s, indices)
    ensures RemovableInOrder(s, Reverse(indices))
    ensures RemoveEach(s, Reverse(indices)).remaining == Without(s, Elements(indices))
    ensures forall j :: 0 <= j < |indices| ==> RemoveEach(s, Reverse(indices)).removed[j] == s[indices[|indices| - 1 - j]]
  {
    var r := Reverse(indices);
    RemoveDecreasing(s, r);
    assert Elements(r) == Elements(indices) by {
      forall x | x in Elements(indices) ensures x in Elements(r) {
        var i :| 0 <= i < |indices| && indices[i] == x;
        assert r[|indices| - 1 - i] == x;
      }
    }
  }

  // ---------------------------------------------------------------------
  // Appending what is not yet there
  // ---------------------------------------------------------------------

  /** Appending each chosen item, in order, unless it is already in the list. */
  function AppendNew<T(==)>(items: seq<T>, chosen: seq<T>): (r: seq<T>)
    ensures |r| >= |items| && r[..|items|] == items
    decreases |chosen|
  {
    if chosen == [] then items
    else
      var prev := AppendNew(items, chosen[..|chosen| - 1]);
      var x := chosen[|chosen| - 1];
      if x in prev then prev else prev + [x]
  }

  /**
   * After the appends every chosen item is present, nothing else was
   * added, no duplicate was introduced, and the list changed iff some
   * chosen item was missing.
   */
  lemma {:induction false} AppendNewSpec<T>(items: seq<T>, chosen: seq<T>)
    ensures forall x :: x in chosen ==> x in AppendNew(items, chosen)
    ensures forall x :: x in AppendNew(items, chosen) ==> x in items || x in chosen
    ensures Distinct(items) ==> Distinct(AppendNew(items, chosen))
    ensures AppendNew(items, chosen) == items <==> forall x :: x in chosen ==> x in items
    decreases |chosen|
  {
    if chosen != [] {
      var c' := chosen[..|chosen| - 1];
      var x := chosen[|chosen| - 1];
      AppendNewSpec(items, c');
      var prev := AppendNew(items, c');
      assert forall y :: y in chosen ==> y in c' || y == x;
      assert forall y :: y in c' ==> y in chosen;
      if x !in prev {
        var r := prev + [x];
        if Distinct(items) {
          forall i, j | 0 <= i < j < |r| ensures r[i] != r[j] {
            if j == |prev| { assert r[i] in prev; }
          }
        }
        assert AppendNew(items, chosen) != items by {
          assert |AppendNew(items, chosen)| > |items|;
        }
        forall i | 0 <= i < |items| ensures items[i] != x {
          assert prev[i] == items[i];
        }
      }
    }
  }
}
