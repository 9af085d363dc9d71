// The freelist that src/timer.c threads through timer_ids, on plain sequences:
// following the negated values from the head visits the free ids in turn and
// stops at the sentinel, the size of the array.

module Freelist {

  /** From head, ids chains exactly the ids in free, in that order, and then names the sentinel. */
  ghost predicate Chain(ids: seq<int>, head: int, free: seq<int>, sentinel: int)
    decreases |free|
  {
    if free == [] then head == sentinel
    else head == free[0] && 1 <= head < |ids| && Chain(ids, -ids[head], free[1..], sentinel)
  }

  /** The ids 1..n-1 are split between live, free and held, none of them twice. */
  ghost predicate Split(live: set<int>, free: seq<int>, held: set<int>, n: nat)
    decreases |free|
  {
    if free == [] then live !! held && (forall id :: id in live + held <==> 1 <= id < n)
    else free[0] !in live && Split(live + {free[0]}, free[1..], held, n)
  }

  /** What Split says, id by id. */
  lemma {:induction false} SplitMeans(live: set<int>, free: seq<int>, held: set<int>, n: nat)
    requires n >= 1 && Split(live, free, held, n)
    ensures forall id :: 1 <= id < n <==> id in live || id in free || id in held
    ensures live !! held
    ensures forall k :: 0 <= k < |free| ==> free[k] !in live && free[k] !in held
    ensures forall j, k :: 0 <= j < k < |free| ==> free[j] != free[k]
    ensures |live| + |free| + |held| == n - 1
    decreases |free|
  {
    if free == [] {
      RangeSize(live + held, n);
    } else {
      SplitMeans(live + {free[0]}, free[1..], held, n);
      assert free == [free[0]] + free[1..];
    }
  }

  lemma {:induction false} RangeSize(s: set<int>, n: nat)
    requires n >= 1 && forall id :: id in s <==> 1 <= id < n
    ensures |s| == n - 1
  {
    if n == 1 {
      assert forall id :: id !in s;
    } else {
      RangeSize(s - {n - 1}, n - 1);
    }
  }

  lemma SplitPop(live: set<int>, free: seq<int>, held: set<int>, n: nat)
    requires Split(live, free, held, n) && free != []
    ensures Split(live + {free[0]}, free[1..], held, n)
  {
  }

  lemma SplitPush(live: set<int>, free: seq<int>, held: set<int>, n: nat, id: int)
    requires Split(live, free, held, n) && id in live
    ensures Split(live - {id}, [id] + free, held, n)
  {
    assert ([id] + free)[1..] == free && live - {id} + {id} == live;
  }

  /** An id may move between live and held. */
  lemma {:induction false} SplitHold(live: set<int>, free: seq<int>, held: set<int>, n: nat, id: int)
    requires Split(live, free, held, n) && id in live
    ensures Split(live - {id}, free, held + {id}, n)
    decreases |free|
  {
    if free != [] {
      SplitHold(live + {free[0]}, free[1..], held, n, id);
      assert live + {free[0]} - {id} == live - {id} + {free[0]};
    } else {
      assert live - {id} + (held + {id}) == live + held;
    }
  }

  lemma {:induction false} SplitRelease(live: set<int>, free: seq<int>, held: set<int>, n: nat, id: int)
    requires Split(live, free, held, n) && id in held
    ensures Split(live + {id}, free, held - {id}, n)
    decreases |free|
  {
    if free == [] {
      assert live + {id} + (held - {id}) == live + held;
    } else {
      SplitRelease(live + {free[0]}, free[1..], held, n, id);
      assert live + {free[0]} + {id} == live + {id} + {free[0]};
      SplitNotHeld(live, free, held, n);
    }
  }

  lemma {:induction false} SplitNotHeld(live: set<int>, free: seq<int>, held: set<int>, n: nat)
    requires Split(live, free, held, n)
    ensures live !! held && (free != [] ==> free[0] !in held)
    decreases |free|
  {
    if free != [] {
      SplitNotHeld(live + {free[0]}, free[1..], held, n);
    }
  }

  /** The ids that doubling adds. */
  function Fresh(lo: int, hi: int): seq<int>
    decreases hi - lo
  {
    if lo < hi then [lo] + Fresh(lo + 1, hi) else []
  }

  lemma {:induction false} SplitGrow(live: set<int>, free: seq<int>, held: set<int>, n: nat, m: nat)
    requires Split(live, free, held, n) && 1 <= n <= m
    ensures Split(live, free + Fresh(n, m), held, m)
    decreases |free|, m - n
  {
    if free != [] {
      SplitGrow(live + {free[0]}, free[1..], held, n, m);
      assert (free + Fresh(n, m))[1..] == free[1..] + Fresh(n, m);
    } else if n < m {
      assert n !in live + held;
      assert forall id :: id in live + {n} + held <==> id in live + held || id == n;
      SplitGrow(live + {n}, [], held, n + 1, m);
      assert [] + Fresh(n, m) == [n] + Fresh(n + 1, m) && [] + Fresh(n + 1, m) == Fresh(n + 1, m);
    }
  }

  /** A chain depends only on the slots it visits. */
  lemma {:induction false} ChainAgree(ids: seq<int>, other: seq<int>, head: int, free: seq<int>, sentinel: int)
    requires Chain(ids, head, free, sentinel) && |ids| <= |other|
    requires forall k :: 0 <= k < |free| ==> 0 <= free[k] < |ids| ==> other[free[k]] == ids[free[k]]
    ensures Chain(other, head, free, sentinel)
    decreases |free|
  {
    if free != [] {
      forall k | 0 <= k < |free[1..]| && 0 <= free[1..][k] < |ids|
        ensures other[free[1..][k]] == ids[free[1..][k]]
      {
        assert free[1..][k] == free[k + 1];
      }
      ChainAgree(ids, other, -ids[head], free[1..], sentinel);
    }
  }

  lemma {:induction false} ChainFresh(ids: seq<int>, lo: int, hi: int)
    requires 1 <= lo <= hi == |ids|
    requires forall k :: lo <= k < hi ==> ids[k] == -(k + 1)
    ensures Chain(ids, lo, Fresh(lo, hi), hi)
    decreases hi - lo
  {
    if lo < hi {
      ChainFresh(ids, lo + 1, hi);
      assert Fresh(lo, hi)[1..] == Fresh(lo + 1, hi);
    }
  }

  /** Doubling: the old sentinel becomes a real free id that carries the chain on to the new sentinel. */
  lemma {:induction false} ChainGrow(ids: seq<int>, newIds: seq<int>, head: int, free: seq<int>)
    requires 1 <= |ids| <= |newIds| && Chain(ids, head, free, |ids|)
    requires forall k :: 0 <= k < |ids| ==> newIds[k] == ids[k]
    requires forall k :: |ids| <= k < |newIds| ==> newIds[k] == -(k + 1)
    ensures Chain(newIds, head, free + Fresh(|ids|, |newIds|), |newIds|)
    decreases |free|
  {
    if free == [] {
      ChainFresh(newIds, |ids|, |newIds|);
      assert free + Fresh(|ids|, |newIds|) == Fresh(|ids|, |newIds|);
    } else {
      ChainGrow(ids, newIds, -ids[head], free[1..]);
      assert (free + Fresh(|ids|, |newIds|))[1..] == free[1..] + Fresh(|ids|, |newIds|);
    }
  }
}
