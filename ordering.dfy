/**
 * Orderings given as "at most" relations, and Kotlin's stable
 * `sortedWith(comparator.reversed())` as an insertion sort into
 * non-increasing order.
 */
module Ordering {

  /** `le` is total and transitive, as any `Comparator` must be. */
  ghost predicate TotalPreorder<T(!new)>(le: (T, T) -> bool)
  {
    (forall a, b :: le(a, b) || le(b, a))
    && (forall a, b, c :: le(a, b) && le(b, c) ==> le(a, c))
  }

  /** Every later element is at most every earlier one. */
  ghost predicate NonIncreasing<T>(s: seq<T>, le: (T, T) -> bool)
  {
    forall i, j :: 0 <= i < j < |s| ==> le(s[j], s[i])
  }

  /**
   * Puts `x` in front of the first element that is at most `x`, so that
   * equal elements keep their input order.
   */
  function InsertDescending<T(!new)>(x: T, s: seq<T>, le: (T, T) -> bool): (r: seq<T>)
    requires TotalPreorder(le)
    requires NonIncreasing(s, le)
    ensures multiset(r) == multiset(s) + multiset{x}
    ensures NonIncreasing(r, le)
  {
    if |s| == 0 then [x]
    else if le(s[0], x) then
      ConsNonIncreasing(x, s, le);
      [x] + s
    else
      var t := InsertDescending(x, s[1..], le);
      InsertedBelowHead(x, s, t, le);
      ConsNonIncreasing(s[0], t, le);
      assert s == [s[0]] + s[1..];
      [s[0]] + t
  }

  /** An element at least every element of a non-increasing list may go in front. */
  lemma ConsNonIncreasing<T>(h: T, t: seq<T>, le: (T, T) -> bool)
    requires NonIncreasing(t, le)
    requires forall k :: 0 <= k < |t| ==> le(t[k], h)
    ensures NonIncreasing([h] + t, le)
  {
    var r := [h] + t;
    forall i, j | 0 <= i < j < |r| ensures le(r[j], r[i]) {
      assert r[j] == t[j - 1];
      if i > 0 { assert r[i] == t[i - 1]; }
    }
  }

  /** What `x` is inserted into after a head larger than `x` stays at most that head. */
  lemma InsertedBelowHead<T(!new)>(x: T, s: seq<T>, t: seq<T>, le: (T, T) -> bool)
    requires TotalPreorder(le) && NonIncreasing(s, le)
    requires s != [] && !le(s[0], x)
    requires multiset(t) == multiset(s[1..]) + multiset{x}
    ensures forall k :: 0 <= k < |t| ==> le(t[k], s[0])
  {
    forall k | 0 <= k < |t| ensures le(t[k], s[0]) {
      assert t[k] in multiset(t);
      if t[k] != x {
        assert t[k] in multiset(s[1..]);
        var i :| 0 <= i < |s[1..]| && s[1..][i] == t[k];
        assert s[i + 1] == t[k];
      }
    }
  }

  /** `sortedWith(comparator.reversed())`: stable, non-increasing. */
  function SortDescending<T(!new)>(s: seq<T>, le: (T, T) -> bool): (r: seq<T>)
    requires TotalPreorder(le)
    ensures multiset(r) == multiset(s)
    ensures |r| == |s|
    ensures NonIncreasing(r, le)
  {
    if |s| == 0 then []
    else
      assert s == [s[0]] + s[1..];
      InsertDescending(s[0], SortDescending(s[1..], le), le)
  }

  /** The natural order of integers, which `sortedDescending()` reverses. */
  function IntLe(a: int, b: int): bool { a <= b }

  lemma IntLeIsTotalPreorder()
    ensures TotalPreorder(IntLe)
  {
  }
}
