/**
 The order in which a least-recently-used cache keeps its ids, and what that order means in terms of
 the whole history of accesses.
 */
module LruOrder {

  function Without(ids: seq<int>, x: int): (r: seq<int>)
    ensures x !in r
    ensures forall y | y != x :: y in r <==> y in ids
    ensures |r| <= |ids|
  {
    if ids == [] then []
    else if ids[0] == x then Without(ids[1..], x)
    else [ids[0]] + Without(ids[1..], x)
  }

  function Take(ids: seq<int>, n: nat): seq<int> {
    if |ids| <= n then ids else ids[..n]
  }

  /** One access: a cached id moves to the front; an id not cached enters there, if need be in place of the last one. */
  function Touch(ids: seq<int>, x: int, capacity: nat): seq<int>
    requires capacity >= 1
  {
    if x in ids then [x] + Without(ids, x)
    else [x] + if |ids| >= capacity then ids[..|ids| - 1] else ids
  }

  function Run(trace: seq<int>, capacity: nat): seq<int>
    requires capacity >= 1
  {
    if trace == [] then [] else Touch(Run(trace[..|trace| - 1], capacity), trace[|trace| - 1], capacity)
  }

  lemma RunSnoc(trace: seq<int>, x: int, capacity: nat)
    requires capacity >= 1
    ensures Run(trace + [x], capacity) == Touch(Run(trace, capacity), x, capacity)
  {
    assert (trace + [x])[..|trace|] == trace;
  }

  /** All ids ever accessed, the last accessed first. */
  function Recency(trace: seq<int>): seq<int> {
    if trace == [] then [] else [trace[|trace| - 1]] + Without(Recency(trace[..|trace| - 1]), trace[|trace| - 1])
  }

  ghost predicate NoRepeats(ids: seq<int>) {
    forall i, j | 0 <= i < j < |ids| :: ids[i] != ids[j]
  }

  lemma {:induction false} WithoutAbsent(ids: seq<int>, x: int)
    requires x !in ids
    ensures Without(ids, x) == ids
  {
    if ids != [] {
      WithoutAbsent(ids[1..], x);
    }
  }

  lemma {:induction false} WithoutNoRepeats(ids: seq<int>, x: int)
    requires NoRepeats(ids)
    ensures NoRepeats(Without(ids, x))
    ensures |Without(ids, x)| == |ids| - (if x in ids then 1 else 0)
  {
    if ids != [] {
      assert NoRepeats(ids[1..]);
      WithoutNoRepeats(ids[1..], x);
      assert ids[0] !in ids[1..];
      var w := Without(ids[1..], x);
      assert forall j | 0 <= j < |w| :: w[j] in ids[1..];
    }
  }

  lemma {:induction false} WithoutAt(ids: seq<int>, i: nat)
    requires NoRepeats(ids) && i < |ids|
    ensures Without(ids, ids[i]) == ids[..i] + ids[i + 1..]
  {
    if i == 0 {
      assert ids[0] !in ids[1..];
      WithoutAbsent(ids[1..], ids[0]);
    } else {
      assert NoRepeats(ids[1..]) && ids[1..][i - 1] == ids[i];
      WithoutAt(ids[1..], i - 1);
      assert ids[..i] == [ids[0]] + ids[1..][..i - 1];
    }
  }

  lemma {:induction false} RecencyNoRepeats(trace: seq<int>)
    ensures NoRepeats(Recency(trace))
  {
    if trace != [] {
      RecencyNoRepeats(trace[..|trace| - 1]);
      WithoutNoRepeats(Recency(trace[..|trace| - 1]), trace[|trace| - 1]);
    }
  }

  lemma TakeCons(h: int, rest: seq<int>, n: nat)
    requires n >= 1
    ensures Take([h] + rest, n) == [h] + Take(rest, n - 1)
  {
  }

  lemma WithoutCons(h: int, rest: seq<int>, x: int)
    ensures Without([h] + rest, x) == (if h == x then [] else [h]) + Without(rest, x)
  {
    assert ([h] + rest)[1..] == rest;
  }

  /** Taking an id out and cutting the list short can be swapped. */
  lemma {:induction false} TakeWithout(ids: seq<int>, x: int, n: nat)
    requires NoRepeats(ids) && n >= 1
    ensures Take(Without(ids, x), n - 1)
         == if x in Take(ids, n) then Without(Take(ids, n), x) else Take(ids, n - 1)
    decreases |ids|
  {
    if ids != [] {
      var h, rest := ids[0], ids[1..];
      assert ids == [h] + rest && NoRepeats(rest) && h !in rest;
      TakeCons(h, rest, n);
      WithoutCons(h, rest, x);
      WithoutCons(h, Take(rest, n - 1), x);
      if h == x {
        WithoutAbsent(rest, x);
        WithoutAbsent(Take(rest, n - 1), x);
      } else if n > 1 {
        TakeWithout(rest, x, n - 1);
        TakeCons(h, Without(rest, x), n - 1);
        TakeCons(h, rest, n - 1);
      }
    }
  }

  /**
   The cache holds exactly the `capacity` most recently accessed distinct ids, in order of recency,
   after every history of accesses.
   */
  lemma {:induction false} RunIsRecency(trace: seq<int>, capacity: nat)
    requires capacity >= 1
    ensures Run(trace, capacity) == Take(Recency(trace), capacity)
  {
    if trace != [] {
      var before, x := trace[..|trace| - 1], trace[|trace| - 1];
      RunIsRecency(before, capacity);
      RecencyNoRepeats(before);
      var all := Recency(before);
      TakeWithout(all, x, capacity);
      assert Take([x] + Without(all, x), capacity) == [x] + Take(Without(all, x), capacity - 1);
      if x !in Take(all, capacity) && |Take(all, capacity)| < capacity {
        assert Take(all, capacity) == all && Take(all, capacity - 1) == all;
      }
    }
  }

  // --- What recency means, independently of how the list is kept --------------------------------

  /** The last time an id was accessed, or -1. */
  function LastUse(trace: seq<int>, x: int): int {
    if trace == [] then -1
    else if trace[|trace| - 1] == x then |trace| - 1
    else LastUse(trace[..|trace| - 1], x)
  }

  lemma {:induction false} LastUseMeaning(trace: seq<int>, x: int)
    ensures -1 <= LastUse(trace, x) < |trace|
    ensures LastUse(trace, x) >= 0 <==> x in trace
    ensures LastUse(trace, x) >= 0 ==> trace[LastUse(trace, x)] == x
    ensures forall i | LastUse(trace, x) < i < |trace| :: trace[i] != x
  {
    if trace != [] {
      LastUseMeaning(trace[..|trace| - 1], x);
    }
  }

  lemma {:induction false} WithoutOrder(ids: seq<int>, x: int, i: nat, j: nat) returns (i': nat, j': nat)
    requires i < j < |Without(ids, x)|
    ensures i' < j' < |ids| && ids[i'] == Without(ids, x)[i] && ids[j'] == Without(ids, x)[j]
  {
    if ids[0] == x {
      i', j' := WithoutOrder(ids[1..], x, i, j);
      i', j' := i' + 1, j' + 1;
    } else if i > 0 {
      i', j' := WithoutOrder(ids[1..], x, i - 1, j - 1);
      i', j' := i' + 1, j' + 1;
    } else {
      var r := Without(ids[1..], x);
      assert r[j - 1] in r;
      var k :| 0 <= k < |ids[1..]| && ids[1..][k] == r[j - 1];
      i', j' := 0, k + 1;
    }
  }

  lemma {:induction false} RecencyHolds(trace: seq<int>, x: int)
    ensures x in Recency(trace) <==> x in trace
  {
    if trace != [] {
      RecencyHolds(trace[..|trace| - 1], x);
      assert trace == trace[..|trace| - 1] + [trace[|trace| - 1]];
    }
  }

  /** The list is ordered by last use. */
  lemma {:induction false} RecencyIsByLastUse(trace: seq<int>)
    ensures forall i, j | 0 <= i < j < |Recency(trace)| ::
              LastUse(trace, Recency(trace)[i]) > LastUse(trace, Recency(trace)[j])
  {
    if trace != [] {
      var before, y := trace[..|trace| - 1], trace[|trace| - 1];
      RecencyIsByLastUse(before);
      var w := Without(Recency(before), y);
      assert Recency(trace) == [y] + w;
      forall i, j | 0 <= i < j < |w|
        ensures LastUse(trace, w[i]) > LastUse(trace, w[j])
      {
        assert w[i] in w && w[j] in w;
        var i', j' := WithoutOrder(Recency(before), y, i, j);
      }
      forall j | 0 <= j < |w|
        ensures LastUse(trace, y) > LastUse(trace, w[j])
      {
        assert w[j] in w;
        LastUseMeaning(before, w[j]);
      }
    }
  }

  /** How many distinct ids were accessed after the last access to `x`. */
  function UsedSince(trace: seq<int>, x: int): nat {
    |set y | y in trace && LastUse(trace, y) > LastUse(trace, x)|
  }

  /**
   A page is still cached if and only if it was accessed and fewer than `capacity` other pages have
   been accessed since: a holder that keeps to that bound never has its page evicted.
   */
  lemma CachedIffRecent(trace: seq<int>, capacity: nat, x: int)
    requires capacity >= 1
    ensures x in Run(trace, capacity) <==> x in trace && UsedSince(trace, x) < capacity
  {
    RunIsRecency(trace, capacity);
    RecencyIsByLastUse(trace);
    RecencyHolds(trace, x);
    if x in trace {
      var r := Recency(trace);
      var p :| 0 <= p < |r| && r[p] == x;
      RecencyNoRepeats(trace);
      var newer := set y | y in trace && LastUse(trace, y) > LastUse(trace, x);
      forall y ensures y in newer <==> y in r[..p] {
        RecencyHolds(trace, y);
        if y in r {
          var q :| 0 <= q < |r| && r[q] == y;
          assert q < p ==> LastUse(trace, r[q]) > LastUse(trace, r[p]);
          assert p < q ==> LastUse(trace, r[p]) > LastUse(trace, r[q]);
        }
      }
      assert newer == set y | y in r[..p];
      SizeOfPrefix(r[..p]);
    }
  }

  lemma {:induction false} SizeOfPrefix(ids: seq<int>)
    requires NoRepeats(ids)
    ensures |set y | y in ids| == |ids|
  {
    if ids != [] {
      var front, last := ids[..|ids| - 1], ids[|ids| - 1];
      SizeOfPrefix(front);
      assert ids == front + [last];
      assert (set y | y in ids) == (set y | y in front) + {last};
    }
  }

  /**
   A holder that fetches a page and then touches fewer than `capacity` other pages keeps it: the page is
   never evicted at any point in between, whatever the history was.
   */
  lemma HeldThroughout(trace: seq<int>, x: int, more: seq<int>, capacity: nat, i: nat)
    requires capacity >= 1 && i <= |more|
    requires |set y | y in more && y != x| < capacity
    ensures x in Run(trace + [x] + more[..i], capacity)
  {
    var all := trace + [x] + more[..i];
    assert all[|trace|] == x;
    CachedIffRecent(all, capacity, x);
    LastUseMeaning(all, x);
    var newer := set y | y in all && LastUse(all, y) > LastUse(all, x);
    var others := set y | y in more && y != x;
    forall y | y in newer ensures y in others {
      LastUseMeaning(all, y);
      assert all[LastUse(all, y)] == more[LastUse(all, y) - |trace| - 1];
    }
    SubsetIsSmaller(newer, others);
  }

  lemma SubsetIsSmaller(a: set<int>, b: set<int>)
    requires a <= b
    ensures |a| <= |b|
  {
    assert b == a + (b - a);
  }
}
