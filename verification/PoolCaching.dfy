// The caching pool factory: src/pool_caching.c.  Released pools are kept on free lists by size class, up to a
// total capacity.

module PoolCaching {
  import opened Options
  import opened PoolBlocks
  import opened Pools

  const EM_CACHING_POOL_ARRAY_SIZE := 16
  const START_SIZE := 5

  const POOL_SIZES: seq<nat> := [
    256, 512, 1024, 2048, 4096, 8192, 12288, 16384,
    20480, 24576, 28672, 32768, 40960, 49152, 57344, 65536]

  /** The least size class that is enough, or the number of classes. */
  function Class(size: nat, i: nat := 0): (c: nat)
    requires i <= EM_CACHING_POOL_ARRAY_SIZE
    ensures i <= c <= EM_CACHING_POOL_ARRAY_SIZE
    ensures c < EM_CACHING_POOL_ARRAY_SIZE ==> size <= POOL_SIZES[c]
    ensures forall j :: i <= j < c ==> POOL_SIZES[j] < size
    decreases EM_CACHING_POOL_ARRAY_SIZE - i
  {
    if i < EM_CACHING_POOL_ARRAY_SIZE && POOL_SIZES[i] < size then Class(size, i + 1) else i
  }

  lemma ClassIs(size: nat, c: nat)
    requires c <= EM_CACHING_POOL_ARRAY_SIZE
    requires forall j :: 0 <= j < c ==> POOL_SIZES[j] < size
    requires c < EM_CACHING_POOL_ARRAY_SIZE ==> size <= POOL_SIZES[c]
    ensures c == Class(size)
  {
  }

  /** The size of the first block of a pool asked for with this size. */
  function PoolSize(size: nat): nat {
    var c := Class(size);
    if c < EM_CACHING_POOL_ARRAY_SIZE then POOL_SIZES[c] else size
  }

  lemma {:induction false} TableRises(i: nat, j: nat)
    requires i < j < |POOL_SIZES|
    ensures POOL_SIZES[i] < POOL_SIZES[j]
  {
    assert POOL_SIZES[j - 1] < POOL_SIZES[j] by {
      StepRises(j - 1);
    }
    if i < j - 1 {
      TableRises(i, j - 1);
    }
  }

  lemma LastSize()
    ensures |POOL_SIZES| == EM_CACHING_POOL_ARRAY_SIZE && POOL_SIZES[EM_CACHING_POOL_ARRAY_SIZE - 1] == 65536
  {
  }

  lemma StepRises(i: nat)
    requires i + 1 < |POOL_SIZES|
    ensures POOL_SIZES[i] < POOL_SIZES[i + 1]
  {
    if i < 8 {
      assert i in {0, 1, 2, 3, 4, 5, 6, 7};
    } else {
      assert i in {8, 9, 10, 11, 12, 13, 14};
    }
  }

  /** The least of the sixteen sizes that is enough, or the size itself when it is above them all. */
  lemma PoolSizeMeans(size: nat)
    ensures size > 65536 ==> PoolSize(size) == size
    ensures size <= 65536 ==> size <= PoolSize(size) && PoolSize(size) in POOL_SIZES
    ensures size <= 65536 ==> forall n :: n in POOL_SIZES && size <= n ==> PoolSize(size) <= n
  {
    hide POOL_SIZES, Class;
    LastSize();
    var c := Class(size);
    if size <= 65536 {
      assert c < EM_CACHING_POOL_ARRAY_SIZE;
      forall n | n in POOL_SIZES && size <= n
        ensures POOL_SIZES[c] <= n
      {
        var i :| 0 <= i < |POOL_SIZES| && POOL_SIZES[i] == n;
        if c < i {
          TableRises(c, i);
        }
      }
    } else {
      forall j | 0 <= j < EM_CACHING_POOL_ARRAY_SIZE
        ensures POOL_SIZES[j] < size
      {
        if j < EM_CACHING_POOL_ARRAY_SIZE - 1 {
          TableRises(j, EM_CACHING_POOL_ARRAY_SIZE - 1);
        }
      }
      ClassIs(size, EM_CACHING_POOL_ARRAY_SIZE);
    }
  }

  /** A first block has exactly the size of its class, and exceeds all classes when it has none. */
  predicate InClass(size: int, c: nat) {
    if c < EM_CACHING_POOL_ARRAY_SIZE then size == POOL_SIZES[c] else size > POOL_SIZES[EM_CACHING_POOL_ARRAY_SIZE - 1]
  }

  lemma SizeInClass(size: nat)
    ensures InClass(PoolSize(size), Class(size))
  {
    hide Class;
  }

  // ---------- Capacity sums ----------

  /** The capacity of what is on the free lists, when each pool on list i has capacity POOL_SIZES[i]. */
  function Cached(lists: seq<seq<Pool>>): (n: nat)
    requires |lists| <= EM_CACHING_POOL_ARRAY_SIZE
  {
    if lists == [] then 0
    else
      var i := |lists| - 1;
      Cached(lists[..i]) + |lists[i]| * POOL_SIZES[i]
  }

  lemma Difference(m: int, n: int, size: int)
    ensures m * size == n * size + (m - n) * size
  {
  }

  lemma {:induction false} CachedUpdate(lists: seq<seq<Pool>>, i: nat, l: seq<Pool>)
    requires i < |lists| <= EM_CACHING_POOL_ARRAY_SIZE
    ensures Cached(lists[i := l]) == Cached(lists) + (|l| - |lists[i]|) * POOL_SIZES[i]
  {
    var k := |lists| - 1;
    if i == k {
      assert lists[i := l][..k] == lists[..k];
      Difference(|l|, |lists[i]|, POOL_SIZES[i]);
    } else {
      CachedUpdate(lists[..k], i, l);
      assert lists[i := l][..k] == lists[..k][i := l];
    }
  }

  function Sum(s: seq<int>): int {
    if s == [] then 0 else Sum(s[..|s| - 1]) + s[|s| - 1]
  }

  lemma {:induction false} SumUpdate(s: seq<int>, i: nat, v: int)
    requires i < |s|
    ensures Sum(s[i := v]) == Sum(s) - s[i] + v
  {
    var k := |s| - 1;
    if i == k {
      assert s[i := v][..k] == s[..k];
    } else {
      SumUpdate(s[..k], i, v);
      assert s[i := v][..k] == s[..k][i := v];
    }
  }

  lemma {:induction false} CachedEmpty(lists: seq<seq<Pool>>)
    requires |lists| <= EM_CACHING_POOL_ARRAY_SIZE && forall i :: 0 <= i < |lists| ==> lists[i] == []
    ensures Cached(lists) == 0
  {
    if lists != [] {
      CachedEmpty(lists[..|lists| - 1]);
    }
  }

  // ---------- Where the pools are ----------

  /** Every pool is in exactly one place: once on the used list, once on one free list, or in hand. */
  ghost predicate Places(used: seq<Pool>, free: seq<seq<Pool>>, pools: set<Pool>, hand: Option<Pool>) {
    && (forall j, k :: 0 <= j < k < |used| ==> used[j] != used[k])
    && (forall i, j, k :: 0 <= i < |free| && 0 <= j < k < |free[i]| ==> free[i][j] != free[i][k])
    && (forall i, k, p :: 0 <= i < k < |free| && p in free[i] ==> p !in free[k])
    && (forall p :: p in used ==> p in pools && Some(p) != hand)
    && (forall i, p :: 0 <= i < |free| && p in free[i] ==> p in pools && p !in used && Some(p) != hand)
    && (forall p :: p in pools ==> p in used || Some(p) == hand || InFree(free, p))
    && (hand.Some? ==> hand.value in pools)
  }

  ghost predicate InFree(free: seq<seq<Pool>>, p: Pool) {
    exists i :: 0 <= i < |free| && p in free[i]
  }

  lemma PlaceNew(used: seq<Pool>, free: seq<seq<Pool>>, pools: set<Pool>, p: Pool)
    requires Places(used, free, pools, None) && p !in pools
    ensures Places(used, free, pools + {p}, Some(p))
  {
  }

  lemma PlaceUsed(used: seq<Pool>, free: seq<seq<Pool>>, pools: set<Pool>, p: Pool)
    requires Places(used, free, pools, Some(p))
    ensures p !in used && Places(used + [p], free, pools, None)
  {
  }

  lemma PlaceGone(used: seq<Pool>, free: seq<seq<Pool>>, pools: set<Pool>, p: Pool)
    requires Places(used, free, pools, Some(p))
    ensures Places(used, free, pools - {p}, None)
  {
  }

  lemma InHand(used: seq<Pool>, free: seq<seq<Pool>>, pools: set<Pool>, p: Pool)
    requires Places(used, free, pools, Some(p))
    ensures p !in used && forall i :: 0 <= i < |free| ==> p !in free[i]
  {
  }

  lemma OwnedApart(p: Pool, l: map<int, Lease>, k: map<int, Lease>, pools: set<Pool>)
    requires OnlyOf(p, l, k) && forall m :: m in l ==> l[m].pool in pools
    ensures forall m :: m in k && k[m].pool != p ==> k[m].pool in pools
  {
  }

  lemma AddedOf(p: Pool, l: map<int, Lease>, mem: int, size: nat)
    requires mem !in l
    ensures OnlyOf(p, l, l[mem := Lease(size, p)])
  {
  }

  lemma TakeUsed(used: seq<Pool>, free: seq<seq<Pool>>, pools: set<Pool>, k: nat)
    requires Places(used, free, pools, None) && k < |used|
    ensures Places(used[..k] + used[k + 1..], free, pools, Some(used[k]))
  {
    var after := used[..k] + used[k + 1..];
    forall i, j | 0 <= i < j < |after|
      ensures after[i] != after[j]
    {
      assert after[i] == used[if i < k then i else i + 1] && after[j] == used[if j < k then j else j + 1];
    }
    assert used[k] !in after by {
      assert forall j :: 0 <= j < |after| ==> after[j] == used[if j < k then j else j + 1];
    }
    forall p | p in used && p != used[k]
      ensures p in after
    {
      var j :| 0 <= j < |used| && used[j] == p;
      assert after[if j < k then j else j - 1] == p;
    }
    assert forall p :: p in after ==> p in used;
  }

  lemma TakeFree(used: seq<Pool>, free: seq<seq<Pool>>, pools: set<Pool>, i: nat)
    requires Places(used, free, pools, None) && i < |free| && free[i] != []
    ensures Places(used, free[i := free[i][1..]], pools, Some(free[i][0]))
    ensures free[i][0] in pools && free[i][0] !in used
  {
    var after := free[i := free[i][1..]];
    assert free[i] == [free[i][0]] + after[i];
    forall p | p in pools && p !in used && p != free[i][0]
      ensures InFree(after, p)
    {
      var k :| 0 <= k < |free| && p in free[k];
      assert p in after[k];
    }
  }

  lemma PlaceFree(used: seq<Pool>, free: seq<seq<Pool>>, pools: set<Pool>, i: nat, p: Pool)
    requires Places(used, free, pools, Some(p)) && i < |free|
    ensures Places(used, free[i := [p] + free[i]], pools, None)
  {
    var after := free[i := [p] + free[i]];
    forall q | q in pools && q !in used
      ensures InFree(after, q)
    {
      if q == p {
        assert p in after[i];
      } else {
        var k :| 0 <= k < |free| && q in free[k];
        assert q in after[k];
      }
    }
  }

  // ---------- The factory ----------

  /** em_caching_pool.  The array of free lists is embedded in the object. */
  class CachingPool {
    const factory: Factory
    var capacity: int
    var maxCapacity: nat
    var usedCount: int
    var usedList: seq<Pool>
    var freeList: seq<seq<Pool>>

    ghost var pools: set<Pool>  // all pools that the factory has to account for

    ghost predicate Valid()
      reads this, factory
      reads pools`blocks, pools`handed, pools`capacity, pools`factoryData
    {
      Core(None) && capacity == Cached(freeList) <= maxCapacity && usedCount == |usedList|
    }

    /** What holds whatever the two counters say, with perhaps one pool in hand. */
    ghost predicate Core(hand: Option<Pool>)
      reads this`usedList, this`freeList, this`pools, factory
      reads pools`blocks, pools`handed, pools`capacity, pools`factoryData
    {
      && factory.Valid()
      && |freeList| == EM_CACHING_POOL_ARRAY_SIZE
      && AllGood() && AllOwned() && FreeFresh() && UsedClass()
      && (hand.Some? ==> hand.value in pools)
      && factory.usedSize == Sum(Capacities(usedList)) + Cached(freeList) +
          (if hand.Some? then hand.value.capacity else 0)
      && Places(usedList, freeList, pools, hand)
    }

    ghost predicate Good(p: Pool)
      reads factory`leases, p`blocks, p`handed, p`capacity
    {
      p.factory == factory && p.ValidIn(factory.leases)
    }

    ghost predicate AllGood()
      reads this`pools, factory`leases, pools`blocks, pools`handed, pools`capacity
    {
      forall p :: p in pools ==> Good(p)
    }

    /** Every lease of the factory's memory belongs to a pool that it still has. */
    ghost predicate AllOwned()
      reads this`pools, factory`leases
    {
      forall m :: m in factory.leases ==> factory.leases[m].pool in pools
    }

    /** Every pool on free list i is as if just created with POOL_SIZES[i]. */
    ghost predicate FreeFresh()
      reads this`freeList, this`pools, pools`blocks, pools`handed, pools`capacity
    {
      && |freeList| == EM_CACHING_POOL_ARRAY_SIZE
      && forall i :: 0 <= i < |freeList| ==> (forall p :: p in freeList[i] ==> p in pools) && AllFresh(freeList[i],
          POOL_SIZES[i])
    }

    static ghost predicate AllFresh(ps: seq<Pool>, size: nat)
      reads ps`blocks, ps`handed, ps`capacity
    {
      forall p :: p in ps ==> p.Fresh(size)
    }

    ghost predicate UsedClass()
      reads this`usedList, this`pools, pools`blocks, pools`factoryData
    {
      forall p :: p in usedList ==> p in pools && ClassOk(p)
    }

    /** A pool in use knows the size class of its first block. */
    static ghost predicate ClassOk(p: Pool)
      reads p`blocks, p`factoryData
    {
      p.blocks != [] && InClass(p.FirstBlock().end - p.FirstBlock().mem, p.factoryData)
    }

    static ghost function Capacities(ps: seq<Pool>): (s: seq<int>)
      reads ps`capacity
      ensures |s| == |ps| && forall i :: 0 <= i < |s| ==> s[i] == ps[i].capacity
    {
      if ps == [] then [] else Capacities(ps[..|ps| - 1]) + [ps[|ps| - 1].capacity]
    }

    /** em_caching_pool_init */
    constructor (factory: Factory, maxCapacity: nat)
      requires factory.Valid() && factory.leases == map[] && factory.usedSize == 0
      ensures Valid() && this.factory == factory && this.maxCapacity == maxCapacity
      ensures usedList == [] && capacity == 0
    {
      this.factory, this.maxCapacity := factory, maxCapacity;
      capacity, usedCount, usedList, pools := 0, 0, [], {};
      freeList := seq(EM_CACHING_POOL_ARRAY_SIZE, _ => []);
      new;
      CachedEmpty(freeList);
    }

    /** The search of cpool_create_pool starts in the middle and still finds the least class that is enough. */
    static method FindClass(size: nat) returns (idx: nat)
      ensures idx == Class(size)
    {
      hide Class;
      var i: int;
      if size <= POOL_SIZES[START_SIZE] {
        i := START_SIZE - 1;
        while i >= 0 && POOL_SIZES[i] >= size
          invariant -1 <= i < START_SIZE
          invariant forall j :: i < j < EM_CACHING_POOL_ARRAY_SIZE ==> size <= POOL_SIZES[j]
        {
          i := i - 1;
        }
        i := i + 1;
      } else {
        i := START_SIZE + 1;
        while i < EM_CACHING_POOL_ARRAY_SIZE && POOL_SIZES[i] < size
          invariant START_SIZE < i <= EM_CACHING_POOL_ARRAY_SIZE
          invariant forall j :: 0 <= j < i ==> POOL_SIZES[j] < size
        {
          i := i + 1;
        }
      }
      ClassIs(size, i);
      idx := i;
    }


    /** What one pool does with its leases does not concern the others. */
    lemma AllStayGood(p: Pool, qs: set<Pool>, l: map<int, Lease>)
      requires OnlyOf(p, l, factory.leases) && p !in qs
      requires forall q :: q in qs ==> q.factory == factory && q.ValidIn(l)
      ensures forall q :: q in qs ==> Good(q)
    {
    }

    /** Put a pool in the used list and mark its factory data. */
    method Enlist(p: Pool, idx: nat, ghost size: nat)
      requires Core(Some(p)) && p.Fresh(size) && InClass(size, idx)
      modifies this`usedList, this`usedCount, p`factoryData
      ensures Core(None) && usedList == old(usedList) + [p] && p !in old(usedList)
      ensures usedCount == old(usedCount) + 1 == old(usedCount) + |usedList| - old(|usedList|)
    {
      hide Places, AllGood, AllOwned, FreeFresh, Pool.ValidIn, Pool.Fresh, Factory.Valid;
      hide Cached, Sum, InClass, Capacities;
      PlaceUsed(usedList, freeList, pools, p);
      assert p.blocks != [] && p.FirstBlock().end - p.FirstBlock().mem == size by { FreshSize(p, size); }
      SumAppend(usedList, p);
      usedList := usedList + [p];
      p.factoryData := idx;
      usedCount := usedCount + 1;
    }

    static lemma FreshSize(p: Pool, size: nat)
      requires p.Fresh(size)
      ensures p.blocks != [] && p.FirstBlock().end - p.FirstBlock().mem == size
    {
    }

    static lemma SumAppend(ps: seq<Pool>, p: Pool)
      ensures Sum(Capacities(ps + [p])) == Sum(Capacities(ps)) + p.capacity
    {
      assert (ps + [p])[..|ps|] == ps;
      assert Capacities(ps + [p])[..|ps|] == Capacities(ps);
    }

    ghost function FreePools(): (s: set<Pool>)
      reads this`pools, this`usedList
    {
      set p | p in pools && p !in usedList
    }

    /** Take the first pool of a free list. */
    method TakeFirst(i: nat) returns (p: Pool)
      requires Core(None) && i < EM_CACHING_POOL_ARRAY_SIZE && freeList[i] != []
      modifies this`freeList
      ensures Core(Some(p)) && p.Fresh(POOL_SIZES[i]) && p.capacity == POOL_SIZES[i]
      ensures p in FreePools()
      ensures p == old(freeList)[i][0] && freeList == old(freeList)[i := old(freeList)[i][1..]]
      ensures Cached(freeList) == old(Cached(freeList)) - POOL_SIZES[i]
    {
      hide Places, AllGood, AllOwned, UsedClass, Cached, Sum;
      TakeFree(usedList, freeList, pools, i);
      CachedUpdate(freeList, i, freeList[i][1..]);
      p := freeList[i][0];
      assert AllFresh(freeList[i], POOL_SIZES[i]) && p in freeList[i];
      freeList := freeList[i := freeList[i][1..]];
    }

    /** Ask the policy for a pool. */
    method NewPool(size: nat, increment: nat, grant: Option<int>) returns (r: Option<Pool>)
      requires Core(None) && factory.MayGrant(grant, size)
      modifies this`pools, factory
      ensures Core(r)
      ensures r.Some? <==> size >= factory.poolHdr + factory.blockHdr && grant.Some?
      ensures r.Some? ==> fresh(r.value) && r.value.Fresh(size) && r.value.incrementSize == increment
      ensures factory.usedSize == old(factory.usedSize) + (if r.Some? then size else 0)
    {
      hide Places, OnlyOf, Pool.ValidIn, Pool.Fresh, Factory.Valid, Cached, Sum;
      r := Pool.Create(factory, size, increment, grant);
      if r.Some? {
        PlaceNew(usedList, freeList, pools, r.value);
        AddedOf(r.value, old(factory.leases), grant.value, size);
        AllStayGood(r.value, pools, old(factory.leases));
        pools := pools + {r.value};
      }
    }

    /** Destroy a pool that is on no list. */
    method Discard(p: Pool)
      requires Core(Some(p))
      modifies this`pools, factory, p`blocks, p`handed, p`capacity
      ensures Core(None) && pools == old(pools) - {p}
      ensures factory.usedSize == old(factory.usedSize - p.capacity)
    {
      hide Places, OnlyOf, Pool.ValidIn, Pool.Fresh, Factory.Valid, Cached, Sum;
      PlaceGone(usedList, freeList, pools, p);
      InHand(usedList, freeList, pools, p);
      p.Destroy();
      pools := pools - {p};
      AllStayGood(p, pools, old(factory.leases));
      OwnedApart(p, old(factory.leases), factory.leases, old(pools));
    }

    /** Put a pool in front of a free list. */
    method Recycle(p: Pool, i: nat)
      requires Core(Some(p)) && i < EM_CACHING_POOL_ARRAY_SIZE && p.Fresh(POOL_SIZES[i])
      modifies this`freeList
      ensures Core(None) && freeList == old(freeList)[i := [p] + old(freeList)[i]]
      ensures Cached(freeList) == old(Cached(freeList)) + POOL_SIZES[i]
    {
      hide Places, AllGood, AllOwned, UsedClass, Cached, Sum;
      PlaceFree(usedList, freeList, pools, i, p);
      CachedUpdate(freeList, i, [p] + freeList[i]);
      freeList := freeList[i := [p] + freeList[i]];
    }

    /** What the other methods need to know of the core. */
    lemma Lists(hand: Option<Pool>)
      requires Core(hand)
      ensures |freeList| == EM_CACHING_POOL_ARRAY_SIZE
      ensures hand.Some? ==> hand.value in pools
    {
    }

    /** Whether a pool of this size can be had from a free list. */
    predicate Hit(size: nat)
      reads this`freeList
      requires |freeList| == EM_CACHING_POOL_ARRAY_SIZE
    {
      var c := Class(size);
      c < EM_CACHING_POOL_ARRAY_SIZE && freeList[c] != []
    }

    /** That is when the least class that is enough has a pool. */
    lemma HitIff(size: nat)
      requires |freeList| == EM_CACHING_POOL_ARRAY_SIZE
      ensures Hit(size) <==>
        exists c :: 0 <= c < |freeList| && freeList[c] != [] &&
          size <= POOL_SIZES[c] && forall j :: 0 <= j < c ==> POOL_SIZES[j] < size
    {
      if c :| 0 <= c < |freeList| && freeList[c] != [] && size <= POOL_SIZES[c]
              && (forall j :: 0 <= j < c ==> POOL_SIZES[j] < size)
      {
        ClassIs(size, c);
      }
    }

    /** cpool_create_pool.  Whether or not the pool was used before, it is as if just created for its class. */
    method CreatePool(initial: nat, increment: nat, grant: Option<int>) returns (r: Option<Pool>)
      requires Valid() && factory.MayGrant(grant, PoolSize(initial))
      modifies this`capacity, this`usedCount, this`usedList, this`freeList, this`pools, factory
      modifies FreePools()`incrementSize, FreePools()`factoryData
      ensures Valid()
      ensures r.Some? <==> old(Hit(initial)) || (PoolSize(initial) >= factory.poolHdr + factory.blockHdr && grant.Some?)
      ensures r.Some? ==> r.value !in old(usedList) && usedList == old(usedList) + [r.value]
      ensures r.Some? ==> r.value.Fresh(PoolSize(initial)) && r.value.incrementSize == increment
      ensures r.None? ==> usedList == old(usedList)
      ensures if old(Hit(initial)) then
                var c := Class(initial);
                && r == Some(old(freeList)[c][0]) && freeList == old(freeList)[c := old(freeList)[c][1..]]
                && factory.usedSize == old(factory.usedSize)
              else
                && freeList == old(freeList)
                && factory.usedSize == old(factory.usedSize) + (if r.Some? then PoolSize(initial) else 0)
    {
      hide Core, Cached, Pool.Fresh, Factory.Valid, Class, POOL_SIZES, InClass;
      LastSize();
      Lists(None);
      var idx := FindClass(initial);
      var pool;
      if idx == EM_CACHING_POOL_ARRAY_SIZE || freeList[idx] == [] {
        var size := if idx < EM_CACHING_POOL_ARRAY_SIZE then POOL_SIZES[idx] else initial;
        r := NewPool(size, increment, grant);
        if r.None? {
          return;
        }
        pool := r.value;
      } else {
        pool := TakeFirst(idx);
        pool.incrementSize := increment;
        if capacity > pool.capacity {
          capacity := capacity - pool.capacity;
        } else {
          capacity := 0;
        }
        r := Some(pool);
      }
      SizeInClass(initial);
      Enlist(pool, idx, PoolSize(initial));
    }

    /** Erase a pool from the used list. */
    method Delist(p: Pool)
      requires Core(None) && p in usedList
      modifies this`usedList
      ensures Core(Some(p)) && ClassOk(p) && Without(old(usedList), usedList, p)
    {
      hide Places, AllGood, AllOwned, FreeFresh, Cached, Sum, Capacities, Factory.Valid, ClassOk, Good;
      var k :| 0 <= k < |usedList| && usedList[k] == p;
      TakeUsed(usedList, freeList, pools, k);
      SumErase(usedList, k);
      usedList := usedList[..k] + usedList[k + 1..];
    }

    static lemma {:induction false} SumErase(ps: seq<Pool>, k: nat)
      requires k < |ps|
      ensures Sum(Capacities(ps[..k] + ps[k + 1..])) == Sum(Capacities(ps)) - ps[k].capacity
      decreases |ps|
    {
      hide Sum, Capacities;
      var n := |ps| - 1;
      assert ps == ps[..n] + [ps[n]];
      SumAppend(ps[..n], ps[n]);
      if k == n {
        assert ps[..k] + ps[k + 1..] == ps[..n];
      } else {
        var rest := ps[..n][..k] + ps[..n][k + 1..];
        SumErase(ps[..n], k);
        SumAppend(rest, ps[n]);
        assert ps[..k] + ps[k + 1..] == rest + [ps[n]];
      }
    }

    static ghost predicate Without(was: seq<Pool>, now: seq<Pool>, p: Pool) {
      exists k :: 0 <= k < |was| && was[k] == p && now == was[..k] + was[k + 1..]
    }

    static lemma WithoutMeans(was: seq<Pool>, now: seq<Pool>, p: Pool)
      requires Without(was, now, p)
      ensures forall q :: q in was && q != p ==> q in now
    {
      var k :| 0 <= k < |was| && was[k] == p && now == was[..k] + was[k + 1..];
      forall q | q in was && q != p
        ensures q in now
      {
        var j :| 0 <= j < |was| && was[j] == q;
        assert now[if j < k then j else j - 1] == q;
      }
    }

    lemma InHandNotUsed(p: Pool)
      requires Core(Some(p))
      ensures p !in usedList
    {
    }

    /** Reset a pool that is on no list. */
    method ResetInHand(p: Pool)
      requires Core(Some(p)) && ClassOk(p)
      modifies factory, p`blocks, p`handed, p`capacity
      ensures Core(Some(p)) && p.Fresh(old(p.FirstBlock().end - p.FirstBlock().mem))
      ensures p.capacity <= old(p.capacity)
      ensures factory.usedSize - p.capacity == old(factory.usedSize - p.capacity)
    {
      hide Places, OnlyOf, Pool.ValidIn, Pool.Fresh, Cached, Sum;
      InHand(usedList, freeList, pools, p);
      p.Reset();
      AllStayGood(p, pools - {p}, old(factory.leases));
      OwnedApart(p, old(factory.leases), factory.leases, old(pools));
    }

    lemma GoodInHand(p: Pool)
      requires Core(Some(p)) && ClassOk(p)
      ensures p.FirstBlock().end - p.FirstBlock().mem <= p.capacity
    {
      assert Good(p);
      FirstInTotal(p.blocks, factory.poolHdr, factory.blockHdr);
    }

    /** cpool_release_pool.  The pool is destroyed when it is too large for the classes or for the cache, and
        otherwise becomes as new in front of the free list of its class. */
    method ReleasePool(p: Pool)
      requires Valid() && p in usedList
      modifies this`capacity, this`usedCount, this`usedList, this`freeList, this`pools, factory
      modifies p`blocks, p`handed, p`capacity
      ensures Valid() && Without(old(usedList), usedList, p)
      ensures p !in usedList && forall q :: q in old(usedList) && q != p ==> q in usedList
      ensures if old(p.capacity) > POOL_SIZES[EM_CACHING_POOL_ARRAY_SIZE - 1] || old(capacity +
          p.capacity) > maxCapacity then
                && p !in pools && freeList == old(freeList) && capacity == old(capacity)
                && factory.usedSize == old(factory.usedSize) - old(p.capacity)
              else
                var i := p.factoryData;
                && i < EM_CACHING_POOL_ARRAY_SIZE && p.Fresh(POOL_SIZES[i])
                && freeList == old(freeList)[i := [p] + old(freeList)[i]] && capacity == old(capacity) + POOL_SIZES[i]
                && factory.usedSize == old(factory.usedSize) - old(p.capacity) + POOL_SIZES[i]
    {
      hide Core, Cached, Factory.Valid;
      Delist(p);
      WithoutMeans(old(usedList), usedList, p);
      InHandNotUsed(p);
      GoodInHand(p);
      usedCount := usedCount - 1;
      var poolCapacity := p.capacity;
      if poolCapacity > POOL_SIZES[EM_CACHING_POOL_ARRAY_SIZE - 1] || capacity + poolCapacity > maxCapacity {
        Discard(p);
        return;
      }
      ResetInHand(p);
      poolCapacity := p.capacity;
      var i := p.factoryData;
      assert i < EM_CACHING_POOL_ARRAY_SIZE;
      Recycle(p, i);
      capacity := capacity + poolCapacity;
    }

    /** When only one pool in use changed, within its own leases, the rest of the core follows. */
    lemma CoreAfter(p: Pool, k: nat, leases: map<int, Lease>, was: seq<int>)
      requires |freeList| == EM_CACHING_POOL_ARRAY_SIZE
      requires k < |usedList| == |was| && usedList[k] == p && p in pools
      requires forall j :: 0 <= j < |was| && j != k ==> usedList[j].capacity == was[j]
      requires OnlyOf(p, leases, factory.leases) && Good(p) && factory.Valid()
      requires forall q :: q in pools && q != p ==> q.factory == factory && q.ValidIn(leases)
      requires forall m :: m in leases ==> leases[m].pool in pools
      requires FreeFresh() && UsedClass() && Places(usedList, freeList, pools, None)
      requires factory.usedSize == Sum(was) + Cached(freeList) + p.capacity - was[k]
      ensures Core(None)
    {
      hide Places, OnlyOf, Pool.ValidIn, FreeFresh, UsedClass, Factory.Valid, Sum, Capacities, Cached;
      AllStayGood(p, pools - {p}, leases);
      OwnedApart(p, leases, factory.leases, pools);
      SumChanged(usedList, k, was);
    }

    static lemma SumChanged(ps: seq<Pool>, k: nat, was: seq<int>)
      requires k < |ps| == |was| && forall j :: 0 <= j < |was| && j != k ==> ps[j].capacity == was[j]
      ensures Sum(Capacities(ps)) == Sum(was) - was[k] + ps[k].capacity
    {
      hide Sum;
      SumUpdate(was, k, ps[k].capacity);
      assert Capacities(ps) == was[k := ps[k].capacity];
    }

    lemma UsedIsNotFree(p: Pool)
      requires Core(None) && p in usedList
      ensures forall i :: 0 <= i < |freeList| ==> p !in freeList[i]
      ensures p in pools && Good(p) && factory.Valid() && ClassOk(p) && p.blocks != []
    {
    }

    /** em_pool_alloc on a pool of this factory. */
    method Alloc(p: Pool, size: nat, grant: Option<int>) returns (r: Option<int>)
      requires Valid() && p in usedList
      requires p.incrementSize > 0 ==> factory.MayGrant(grant, GrowSize(size, p.incrementSize, factory.blockHdr))
      modifies factory, p`blocks, p`handed, p`capacity
      ensures Valid()
      ensures p.Allocated(old(p.blocks), p.blocks, size, grant, r)
      ensures p.handed == if r.Some? then old(p.handed) + [Range(r.value, RoundUp(size))] else old(p.handed)
    {
      hide Places, OnlyOf, Pool.ValidIn, Pool.Fresh, Cached, Sum, Pool.Allocated, RoundUp;
      UsedIsNotFree(p);
      ghost var k :| 0 <= k < |usedList| && usedList[k] == p;
      r := p.Alloc(size, grant);
      p.FirstBlockStays(old(p.blocks), size, grant, r);
      NoOther(p, k);
      CoreAfter(p, k, old(factory.leases), old(Capacities(usedList)));
    }

    lemma NoOther(p: Pool, k: nat)
      requires k < |usedList| && usedList[k] == p && Places(usedList, freeList, pools, None)
      ensures forall j :: 0 <= j < |usedList| && j != k ==> usedList[j] != p
    {
    }

    /** em_pool_reset on a pool of this factory. */
    method Reset(p: Pool)
      requires Valid() && p in usedList
      modifies factory, p`blocks, p`handed, p`capacity
      ensures Valid() && p.Fresh(old(p.FirstBlock().end - p.FirstBlock().mem))
    {
      hide Places, OnlyOf, Pool.ValidIn, Cached, Sum;
      UsedIsNotFree(p);
      ghost var k :| 0 <= k < |usedList| && usedList[k] == p;
      p.Reset();
      NoOther(p, k);
      CoreAfter(p, k, old(factory.leases), old(Capacities(usedList)));
    }

    /** Every pool in use is consistent, and every cached one is as just created for its list; the used size is the
        capacity of them all; and all memory belongs to one of them. */
    lemma ValidMeans()
      requires Valid()
      ensures |freeList| == EM_CACHING_POOL_ARRAY_SIZE && capacity <= maxCapacity && usedCount == |usedList|
      ensures factory.usedSize == Sum(Capacities(usedList)) + capacity
      ensures forall p :: p in usedList ==> p.factory == factory && p.Valid()
      ensures forall i, p :: 0 <= i < |freeList| && p in freeList[i] ==>
                p !in usedList && p.factory == factory && p.Valid() && p.Fresh(POOL_SIZES[i])
      ensures forall m :: m in factory.leases ==>
                factory.leases[m].pool in usedList || InFree(freeList, factory.leases[m].pool)
    {
      hide Factory.Valid, Pool.ValidIn, Pool.Fresh, Cached, Sum, Capacities;
      assert forall p :: p in pools ==> Good(p);
    }

    /** em_caching_pool_destroy.  All memory goes back to the backend, while the two counters keep their values. */
    method Destroy()
      requires Valid()
      modifies this`usedList, this`freeList, this`pools, factory
      modifies pools`blocks, pools`handed, pools`capacity
      ensures usedList == [] && (forall i :: 0 <= i < |freeList| ==> freeList[i] == []) && pools == {}
      ensures factory.Valid() && factory.leases == map[] && factory.usedSize == 0
    {
      hide Core, Factory.Valid;
      Lists(None);
      for i := 0 to EM_CACHING_POOL_ARRAY_SIZE
        invariant Core(None) && |freeList| == EM_CACHING_POOL_ARRAY_SIZE && pools <= old(pools)
        invariant forall j :: 0 <= j < i ==> freeList[j] == []
      {
        while freeList[i] != []
          invariant Core(None) && |freeList| == EM_CACHING_POOL_ARRAY_SIZE && pools <= old(pools)
          invariant forall j :: 0 <= j < i ==> freeList[j] == []
          decreases |freeList[i]|
        {
          var p := TakeFirst(i);
          Lists(Some(p));
          Discard(p);
        }
      }
      while usedList != []
        invariant Core(None) && |freeList| == EM_CACHING_POOL_ARRAY_SIZE && pools <= old(pools)
        invariant forall j :: 0 <= j < |freeList| ==> freeList[j] == []
        decreases |usedList|
      {
        var p := usedList[0];
        Delist(p);
        Lists(Some(p));
        Discard(p);
      }
      NothingLeft();
    }

    lemma NothingLeft()
      requires Core(None) && usedList == [] && forall i :: 0 <= i < |freeList| ==> freeList[i] == []
      ensures pools == {} && factory.Valid() && factory.leases == map[] && factory.usedSize == 0
    {
    }
  }
}
