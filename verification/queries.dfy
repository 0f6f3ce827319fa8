/**
 The two LINQ operators the car applies to the stored readings:
 `Where(e => e.Timestamp >= sinceTime)`, an order-preserving filter, and
 `OrderBy(e => e.Timestamp)`, a stable sort by timestamp.

 Stability is stated through `At(s, t)`, the readings of `s` stamped exactly
 `t` in their order in `s`: a stable sort keeps every `At` subsequence as it
 was. `StableSortUnique` shows that being sorted and keeping every `At`
 subsequence determines the output, so any stable sort by timestamp returns
 what `OrderBy` here returns.
 */
module Queries {
  import opened Clock
  import opened Telemetry

  /** The readings of `s` stamped exactly `t`, in their order in `s`. */
  function At(s: seq<EcuData>, t: DateTime): seq<EcuData>
  {
    if s == [] then []
    else At(s[..|s| - 1], t) + (if s[|s| - 1].timestamp == t then [s[|s| - 1]] else [])
  }

  lemma {:induction false} AtMember(s: seq<EcuData>, t: DateTime, x: EcuData)
    ensures x in At(s, t) <==> x in s && x.timestamp == t
    decreases |s|
  {
    if s != [] {
      var init, last := s[..|s| - 1], s[|s| - 1];
      assert s == init + [last];
      AtMember(init, t, x);
    }
  }

  lemma AtAppend(s: seq<EcuData>, y: EcuData, t: DateTime)
    ensures At(s + [y], t) == At(s, t) + (if y.timestamp == t then [y] else [])
  {
    assert (s + [y])[..|s|] == s;
  }

  lemma AtAppendAll(s: seq<EcuData>, y: EcuData)
    ensures forall t: DateTime :: At(s + [y], t) == At(s, t) + (if y.timestamp == t then [y] else [])
  {
    forall t: DateTime
      ensures At(s + [y], t) == At(s, t) + (if y.timestamp == t then [y] else [])
    {
      AtAppend(s, y, t);
    }
  }

  /** Equal sequences with equal suffixes have equal prefixes. */
  lemma CancelSuffix(p: seq<EcuData>, q: seq<EcuData>, e: seq<EcuData>)
    requires p + e == q + e
    ensures p == q
  {
    assert |p| == |q|;
    assert p == (p + e)[..|p|];
    assert q == (q + e)[..|q|];
  }

  /** The filter `Where(e => e.Timestamp >= since)`: it keeps store order among the readings it keeps. */
  function Since(s: seq<EcuData>, since: DateTime): (r: seq<EcuData>)
    ensures forall t: DateTime :: At(r, t) == if since <= t then At(s, t) else []
  {
    if s == [] then []
    else
      var init, last := s[..|s| - 1], s[|s| - 1];
      assert s == init + [last];
      var front := Since(init, since);
      var r := front + (if since <= last.timestamp then [last] else []);
      SinceStep(init, last, since, front, r);
      r
  }

  /** On a single reading the filter keeps it exactly when it is not earlier than `since`. */
  lemma SinceSingle(x: EcuData, since: DateTime)
    ensures Since([x], since) == if since <= x.timestamp then [x] else []
  {
    assert [x][..0] == [];
  }

  /**
   The filter distributes over concatenation: with `SinceSingle` this fixes
   `Since` completely, so the kept readings stay in store order across
   timestamps too.
   */
  lemma {:induction false} SinceConcat(a: seq<EcuData>, b: seq<EcuData>, since: DateTime)
    ensures Since(a + b, since) == Since(a, since) + Since(b, since)
    decreases |b|
  {
    if b == [] {
      assert a + b == a;
    } else {
      var init, last := b[..|b| - 1], b[|b| - 1];
      assert b == init + [last];
      var ab := a + b;
      assert ab[..|ab| - 1] == a + init && ab[|ab| - 1] == last;
      SinceConcat(a, init, since);
    }
  }

  /** `Since` keeps each reading at or after `since` as often as `s` holds it, and no other. */
  lemma {:induction false} SinceContents(s: seq<EcuData>, since: DateTime)
    ensures forall x :: multiset(Since(s, since))[x] == if since <= x.timestamp then multiset(s)[x] else 0
    ensures forall x :: x in Since(s, since) <==> x in s && since <= x.timestamp
    decreases |s|
  {
    if s != [] {
      var init, last := s[..|s| - 1], s[|s| - 1];
      assert s == init + [last];
      SinceContents(init, since);
      assert multiset(s) == multiset(init) + multiset{last};
    }
  }

  lemma SinceStep(init: seq<EcuData>, last: EcuData, since: DateTime, front: seq<EcuData>, r: seq<EcuData>)
    requires forall t: DateTime :: At(front, t) == if since <= t then At(init, t) else []
    requires r == front + (if since <= last.timestamp then [last] else [])
    ensures forall t: DateTime :: At(r, t) == if since <= t then At(init + [last], t) else []
  {
    forall t: DateTime
      ensures At(r, t) == if since <= t then At(init + [last], t) else []
    {
      AtAppend(init, last, t);
      if since <= last.timestamp {
        AtAppend(front, last, t);
      } else {
        assert front + [] == front;
      }
    }
  }

  predicate Sorted(s: seq<EcuData>) {
    forall i, j :: 0 <= i < j < |s| ==> s[i].timestamp <= s[j].timestamp
  }

  /** The last reading of a sorted sequence is among its latest. */
  lemma LastIsLatest(s: seq<EcuData>, z: EcuData)
    requires Sorted(s) && z in s
    ensures z.timestamp <= s[|s| - 1].timestamp
  {
    var i :| 0 <= i < |s| && s[i] == z;
  }

  lemma SortedAppend(s: seq<EcuData>, y: EcuData)
    requires Sorted(s)
    requires forall z :: z in s ==> z.timestamp <= y.timestamp
    ensures Sorted(s + [y])
  {
    forall i, j | 0 <= i < j < |s + [y]|
      ensures (s + [y])[i].timestamp <= (s + [y])[j].timestamp
    {
      if j == |s| {
        assert s[i] in s;
      }
    }
  }

  /** `r` is what a stable sort of `s` by timestamp returns. */
  predicate IsStableSortOf(r: seq<EcuData>, s: seq<EcuData>) {
    Sorted(r) && forall t: DateTime :: At(r, t) == At(s, t)
  }

  /** Inserts `x` into sorted `s` after every reading not later than `x`. */
  function Insert(s: seq<EcuData>, x: EcuData): (r: seq<EcuData>)
    requires Sorted(s)
    ensures Sorted(r)
    ensures multiset(r) == multiset(s) + multiset{x}
    ensures forall t: DateTime :: At(r, t) == At(s, t) + (if x.timestamp == t then [x] else [])
  {
    if s == [] || s[|s| - 1].timestamp <= x.timestamp then
      InsertAtEnd(s, x);
      s + [x]
    else
      var init, last := s[..|s| - 1], s[|s| - 1];
      assert s == init + [last];
      var front := Insert(init, x);
      InsertBelowLast(s, x, front);
      InsertBeforeLastAt(init, last, x, front);
      front + [last]
  }

  lemma InsertAtEnd(s: seq<EcuData>, x: EcuData)
    requires Sorted(s)
    requires s == [] || s[|s| - 1].timestamp <= x.timestamp
    ensures Sorted(s + [x])
    ensures forall t: DateTime :: At(s + [x], t) == At(s, t) + (if x.timestamp == t then [x] else [])
  {
    forall z | z in s
      ensures z.timestamp <= x.timestamp
    {
      LastIsLatest(s, z);
    }
    SortedAppend(s, x);
    AtAppendAll(s, x);
  }

  /** Placing `x` before a strictly later `last` leaves each `At` subsequence as appending it would. */
  lemma InsertBeforeLastAt(init: seq<EcuData>, last: EcuData, x: EcuData, front: seq<EcuData>)
    requires x.timestamp < last.timestamp
    requires forall t: DateTime :: At(front, t) == At(init, t) + (if x.timestamp == t then [x] else [])
    ensures forall t: DateTime :: At(front + [last], t) == At(init + [last], t) + (if x.timestamp == t then [x] else [])
  {
    forall t: DateTime
      ensures At(front + [last], t) == At(init + [last], t) + (if x.timestamp == t then [x] else [])
    {
      AtAppend(front, last, t);
      AtAppend(init, last, t);
      if x.timestamp == t {
        assert At(front + [last], t) == At(init, t) + [x];
      } else if last.timestamp == t {
        assert At(front + [last], t) == At(init, t) + [last];
      }
    }
  }

  /** Every reading of `Insert(init, x)` is no later than the last reading of `s`. */
  lemma InsertBelowLast(s: seq<EcuData>, x: EcuData, front: seq<EcuData>)
    requires Sorted(s) && s != [] && x.timestamp < s[|s| - 1].timestamp
    requires multiset(front) == multiset(s[..|s| - 1]) + multiset{x}
    requires Sorted(front)
    ensures Sorted(front + [s[|s| - 1]])
  {
    var init, last := s[..|s| - 1], s[|s| - 1];
    assert s == init + [last];
    forall y | y in front
      ensures y.timestamp <= last.timestamp
    {
      assert y in multiset(front);
      if y != x {
        assert y in init;
        LastIsLatest(s, y);
      }
    }
    SortedAppend(front, last);
  }

  /** The stable sort `OrderBy(e => e.Timestamp)`. */
  function OrderBy(s: seq<EcuData>): (r: seq<EcuData>)
    ensures IsStableSortOf(r, s)
    ensures multiset(r) == multiset(s)
  {
    if s == [] then []
    else
      var init, last := s[..|s| - 1], s[|s| - 1];
      assert s == init + [last];
      AtAppendAll(init, last);
      Insert(OrderBy(init), last)
  }

  /**
   A sorted sequence is determined by its `At` subsequences: two sorted
   sequences that agree on every `At` subsequence are equal. Hence every stable
   sort of the same input by timestamp gives the same output.
   */
  lemma {:induction false} StableSortUnique(a: seq<EcuData>, b: seq<EcuData>)
    requires Sorted(a) && Sorted(b)
    requires forall t: DateTime :: At(a, t) == At(b, t)
    ensures a == b
    decreases |a| + |b|
  {
    if a == [] && b == [] {
    } else if a == [] {
      var y := b[|b| - 1];
      AtMember(b, y.timestamp, y);
    } else if b == [] {
      var x := a[|a| - 1];
      AtMember(a, x.timestamp, x);
    } else {
      var a', x := a[..|a| - 1], a[|a| - 1];
      var b', y := b[..|b| - 1], b[|b| - 1];
      assert a == a' + [x] && b == b' + [y];
      LastsAgree(a, b);
      forall t: DateTime
        ensures At(a', t) == At(b', t)
      {
        AtAppend(a', x, t);
        AtAppend(b', y, t);
        CancelSuffix(At(a', t), At(b', t), if x.timestamp == t then [x] else []);
      }
      StableSortUnique(a', b');
    }
  }

  /** The last reading of `s` ends the `At` subsequence of its own timestamp. */
  lemma AtEndsWithLast(s: seq<EcuData>)
    requires s != []
    ensures var x := s[|s| - 1];
            At(s, x.timestamp) != [] && At(s, x.timestamp)[|At(s, x.timestamp)| - 1] == x
  {
  }

  /** The last reading of `a` is also in `b`, so it is no later than the last reading of sorted `b`. */
  lemma LastNotLater(a: seq<EcuData>, b: seq<EcuData>)
    requires Sorted(b) && a != [] && b != []
    requires forall t: DateTime :: At(a, t) == At(b, t)
    ensures a[|a| - 1].timestamp <= b[|b| - 1].timestamp
  {
    var x := a[|a| - 1];
    AtMember(a, x.timestamp, x);
    AtMember(b, x.timestamp, x);
    LastIsLatest(b, x);
  }

  /** Two non-empty sorted sequences with the same `At` subsequences end with the same reading. */
  lemma LastsAgree(a: seq<EcuData>, b: seq<EcuData>)
    requires Sorted(a) && Sorted(b) && a != [] && b != []
    requires forall t: DateTime :: At(a, t) == At(b, t)
    ensures a[|a| - 1] == b[|b| - 1]
  {
    var x, y := a[|a| - 1], b[|b| - 1];
    // The last readings carry the largest timestamp of each side, and these agree.
    LastNotLater(a, b);
    LastNotLater(b, a);
    AtEndsWithLast(a);
    AtEndsWithLast(b);
    assert At(a, x.timestamp) == At(b, y.timestamp);
  }

  /** A sequence already in time order is its own stable sort. */
  lemma OrderBySorted(s: seq<EcuData>)
    requires Sorted(s)
    ensures OrderBy(s) == s
  {
    StableSortUnique(OrderBy(s), s);
  }

  /**
   When the readings before position `k` are all earlier than `since` and
   the rest are not, the readings since `since` are the suffix from `k`.
   */
  lemma {:induction false} SinceSuffix(s: seq<EcuData>, since: DateTime, k: int)
    requires 0 <= k <= |s|
    requires forall i :: 0 <= i < k ==> s[i].timestamp < since
    requires forall i :: k <= i < |s| ==> since <= s[i].timestamp
    ensures Since(s, since) == s[k..]
    decreases |s|
  {
    if s != [] {
      var init, last := s[..|s| - 1], s[|s| - 1];
      assert s == init + [last];
      if k == |s| {
        SinceSuffix(init, since, |init|);
      } else {
        SinceSuffix(init, since, k);
        assert s[k..] == init[k..] + [last];
      }
    }
  }
}
