/**
 * Kotlin's `distinctBy`: the elements of a list whose key has not been seen
 * before, in order, so that the first occurrence of each key is kept.
 */
module Distinct {
  import opened Wrappers

  /** The first element of `s` whose key is `k`, if any. */
  function FirstWithKey<T>(s: seq<T>, key: T -> string, k: string): (r: Option<T>)
    ensures r.None? <==> forall i :: 0 <= i < |s| ==> key(s[i]) != k
    ensures r.Some? ==> r.value in s && key(r.value) == k
  {
    if s == [] then None
    else if key(s[0]) == k then Some(s[0])
    else FirstWithKey(s[1..], key, k)
  }

  /** `s.distinctBy(key)`, skipping also the keys in `seen`. */
  function DistinctBy<T>(s: seq<T>, key: T -> string, seen: set<string>): (r: seq<T>)
    ensures forall x :: x in r ==> x in s && key(x) !in seen
    ensures |s| > 0 && key(s[0]) !in seen ==> |r| > 0 && r[0] == s[0]
    ensures |r| <= |s|
  {
    if s == [] then []
    else if key(s[0]) in seen then DistinctBy(s[1..], key, seen)
    else [s[0]] + DistinctBy(s[1..], key, seen + {key(s[0])})
  }

  /** The keys seen after the first element has been looked at. */
  function SeenAfterHead<T>(s: seq<T>, key: T -> string, seen: set<string>): set<string>
    requires s != []
  {
    if key(s[0]) in seen then seen else seen + {key(s[0])}
  }

  lemma DistinctByStep<T>(s: seq<T>, key: T -> string, seen: set<string>)
    requires s != []
    ensures key(s[0]) in seen ==> DistinctBy(s, key, seen) == DistinctBy(s[1..], key, SeenAfterHead(s, key, seen))
    ensures key(s[0]) !in seen ==> DistinctBy(s, key, seen) == [s[0]] + DistinctBy(s[1..], key, SeenAfterHead(s, key, seen))
  {
  }

  /** No two elements of the result share a key. */
  lemma {:induction false} DistinctByIsDistinct<T>(s: seq<T>, key: T -> string, seen: set<string>)
    ensures var r := DistinctBy(s, key, seen);
      forall j, k :: 0 <= j < k < |r| ==> key(r[j]) != key(r[k])
    decreases |s|
  {
    if s != [] {
      var seen' := SeenAfterHead(s, key, seen);
      DistinctByIsDistinct(s[1..], key, seen');
      DistinctByStep(s, key, seen);
      var rest := DistinctBy(s[1..], key, seen');
      if key(s[0]) !in seen {
        forall i | 0 <= i < |rest| ensures key(rest[i]) != key(s[0]) {
          assert rest[i] in rest;
        }
        ConsDistinct(s[0], rest, key);
      }
    }
  }

  /** An element whose key the rest does not hold, in front of a list without repeated keys. */
  lemma ConsDistinct<T>(h: T, rest: seq<T>, key: T -> string)
    requires forall i :: 0 <= i < |rest| ==> key(rest[i]) != key(h)
    requires forall j, k :: 0 <= j < k < |rest| ==> key(rest[j]) != key(rest[k])
    ensures var r := [h] + rest;
      forall j, k :: 0 <= j < k < |r| ==> key(r[j]) != key(r[k])
  {
    var r := [h] + rest;
    forall j, k | 0 <= j < k < |r| ensures key(r[j]) != key(r[k]) {
      assert r[k] == rest[k - 1];
      if j > 0 { assert r[j] == rest[j - 1]; }
    }
  }

  /** Every key of `s` that was not seen before is the key of some element of the result. */
  lemma {:induction false} DistinctByCoversKeys<T>(s: seq<T>, key: T -> string, seen: set<string>)
    ensures var r := DistinctBy(s, key, seen);
      forall i :: 0 <= i < |s| && key(s[i]) !in seen ==> FirstWithKey(r, key, key(s[i])).Some?
    decreases |s|
  {
    if s != [] {
      var seen' := SeenAfterHead(s, key, seen);
      DistinctByCoversKeys(s[1..], key, seen');
      DistinctByStep(s, key, seen);
      var r := DistinctBy(s, key, seen);
      var rest := DistinctBy(s[1..], key, seen');
      forall i | 0 <= i < |s| && key(s[i]) !in seen
        ensures FirstWithKey(r, key, key(s[i])).Some?
      {
        if key(s[i]) != key(s[0]) {
          assert s[1..][i - 1] == s[i];
          assert FirstWithKey(rest, key, key(s[i])).Some?;
          if key(s[0]) !in seen {
            assert r[1..] == rest;
          }
        }
      }
    }
  }

  /** Each element kept is the first one of `s` with its key. */
  lemma {:induction false} DistinctByKeepsFirst<T>(s: seq<T>, key: T -> string, seen: set<string>)
    ensures var r := DistinctBy(s, key, seen);
      forall j :: 0 <= j < |r| ==> FirstWithKey(s, key, key(r[j])) == Some(r[j])
    decreases |s|
  {
    if s != [] {
      var seen' := SeenAfterHead(s, key, seen);
      DistinctByKeepsFirst(s[1..], key, seen');
      DistinctByStep(s, key, seen);
      var r := DistinctBy(s, key, seen);
      var rest := DistinctBy(s[1..], key, seen');
      forall j | 0 <= j < |r| ensures FirstWithKey(s, key, key(r[j])) == Some(r[j]) {
        if key(s[0]) in seen {
          assert r[j] in rest;
          assert key(r[j]) != key(s[0]);
        } else if j > 0 {
          assert r[j] == rest[j - 1];
          assert r[j] in rest;
          assert key(r[j]) != key(s[0]);
        }
      }
    }
  }

  /** A list already free of repeated keys is left as it is. */
  lemma {:induction false} DistinctByOfDistinct<T>(s: seq<T>, key: T -> string, seen: set<string>)
    requires forall i, j :: 0 <= i < j < |s| ==> key(s[i]) != key(s[j])
    requires forall i :: 0 <= i < |s| ==> key(s[i]) !in seen
    ensures DistinctBy(s, key, seen) == s
    decreases |s|
  {
    if s != [] {
      assert forall i :: 1 <= i < |s| ==> s[i] == s[1..][i - 1];
      DistinctByOfDistinct(s[1..], key, seen + {key(s[0])});
    }
  }

  /** The keys of the elements of `s`. */
  function Keys<T>(s: seq<T>, key: T -> string): set<string>
  {
    set i | 0 <= i < |s| :: key(s[i])
  }

  lemma {:induction false} KeysCons<T>(s: seq<T>, key: T -> string)
    requires s != []
    ensures Keys(s, key) == {key(s[0])} + Keys(s[1..], key)
  {
    var tail := Keys(s[1..], key);
    forall k | k in Keys(s, key) ensures k in {key(s[0])} + tail {
      var i :| 0 <= i < |s| && key(s[i]) == k;
      if i > 0 { assert s[1..][i - 1] == s[i]; }
    }
    forall k | k in tail ensures k in Keys(s, key) {
      var i :| 0 <= i < |s[1..]| && key(s[1..][i]) == k;
      assert s[i + 1] == s[1..][i];
    }
  }

  /** The result holds one element per key of `s` not seen before. */
  lemma {:induction false} DistinctByCount<T>(s: seq<T>, key: T -> string, seen: set<string>)
    ensures |DistinctBy(s, key, seen)| == |Keys(s, key) - seen|
    decreases |s|
  {
    if s == [] {
      assert Keys(s, key) == {};
    } else {
      var k0 := key(s[0]);
      var seen' := SeenAfterHead(s, key, seen);
      DistinctByStep(s, key, seen);
      DistinctByCount(s[1..], key, seen');
      KeysCons(s, key);
      var tail := Keys(s[1..], key);
      if k0 in seen {
        assert Keys(s, key) - seen == tail - seen';
      } else {
        assert Keys(s, key) - seen == {k0} + (tail - seen');
        assert k0 !in tail - seen';
      }
    }
  }
}
