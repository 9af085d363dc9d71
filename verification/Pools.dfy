// Memory pools: src/pool.c, include/em/pool_i.h, and the default policy of src/pool_policy_malloc.c with the
// accounting hooks of src/pool_caching.c.  The backend allocator is seen through the address that it grants for
// a request, if any.

module Pools {
  import opened Options
  import opened PoolBlocks

  /** Memory that the backend granted and did not get back, with the pool that it was asked for. */
  datatype Lease = Lease(size: nat, pool: Pool)

  // ---------- Sums over leases ----------

  ghost function Pick<T>(keys: set<T>): (m: T)
    requires keys != {}
    ensures m in keys
  {
    var m :| m in keys;
    m
  }

  ghost function Leased(l: map<int, Lease>): (n: nat)
    decreases |l|
  {
    if l.Keys == {} then 0
    else
      var m := Pick(l.Keys);
      Shrinks(l, m);
      l[m].size + Leased(l - {m})
  }

  lemma Shrinks(l: map<int, Lease>, m: int)
    requires m in l
    ensures |l - {m}| < |l|
  {
  }

  lemma {:induction false} LeasedRemove(l: map<int, Lease>, m: int)
    requires m in l
    ensures Leased(l) == l[m].size + Leased(l - {m})
    decreases |l|
  {
    var x := Pick(l.Keys);
    if x != m {
      Shrinks(l, x);
      Shrinks(l, m);
      LeasedRemove(l - {x}, m);
      LeasedRemove(l - {m}, x);
      assert l - {x} - {m} == l - {m} - {x};
    }
  }

  lemma LeasedAdd(l: map<int, Lease>, m: int, lease: Lease)
    requires m !in l
    ensures Leased(l[m := lease]) == Leased(l) + lease.size
  {
    LeasedRemove(l[m := lease], m);
    assert l[m := lease] - {m} == l;
  }

  /** The leases of a pool are exactly its blocks. */
  ghost predicate Holding(p: Pool, blocks: seq<Block>, l: map<int, Lease>) {
    && (forall i :: 0 <= i < |blocks| ==> Covers(l, p, blocks[i]))
    && (forall m :: m in l && l[m].pool == p ==> At(blocks, m))
  }

  ghost predicate At(blocks: seq<Block>, m: int) {
    exists i :: 0 <= i < |blocks| && blocks[i].mem == m
  }

  ghost predicate Covers(l: map<int, Lease>, p: Pool, b: Block) {
    b.mem in l && l[b.mem].size == b.end - b.mem && l[b.mem].pool == p
  }

  lemma HoldingMeans(p: Pool, blocks: seq<Block>, l: map<int, Lease>, i: nat)
    requires Holding(p, blocks, l) && i < |blocks|
    ensures Covers(l, p, blocks[i])
  {
  }

  lemma HoldingUpdate(p: Pool, blocks: seq<Block>, l: map<int, Lease>, i: nat, b: Block)
    requires Holding(p, blocks, l) && i < |blocks| && b.mem == blocks[i].mem && b.end == blocks[i].end
    ensures Holding(p, blocks[i := b], l)
  {
    forall m | m in l && l[m].pool == p
      ensures At(blocks[i := b], m)
    {
      var k :| 0 <= k < |blocks| && blocks[k].mem == m;
      assert blocks[i := b][k].mem == m;
    }
  }

  lemma HoldingGrow(p: Pool, blocks: seq<Block>, l: map<int, Lease>, b: Block)
    requires Holding(p, blocks, l) && b.mem !in l && b.mem <= b.end
    ensures Holding(p, [b] + blocks, l[b.mem := Lease(b.end - b.mem, p)])
  {
    var after, k := [b] + blocks, l[b.mem := Lease(b.end - b.mem, p)];
    forall m | m in k && k[m].pool == p
      ensures At(after, m)
    {
      if m == b.mem {
        assert after[0].mem == m;
      } else {
        var i :| 0 <= i < |blocks| && blocks[i].mem == m;
        assert after[i + 1].mem == m;
      }
    }
  }

  ghost predicate ClearOf(l: map<int, Lease>, mem: int, size: nat) {
    forall m :: m in l ==> Disjoint(m, l[m].size, mem, size)
  }

  /** A new block in memory that is clear of all leases keeps a pool consistent. */
  lemma GrowWithLease(p: Pool, blocks: seq<Block>, handed: seq<Range>, l: map<int, Lease>, mem: int, size: nat,
                      poolHdr: nat, blockHdr: nat)
    requires BlocksOk(blocks, poolHdr, blockHdr) && Sound(blocks, handed) && Holding(p, blocks, l)
    requires mem % EM_POOL_ALIGNMENT == 0 && blockHdr % EM_POOL_ALIGNMENT == 0 && blockHdr <= size
    requires mem !in l && ClearOf(l, mem, size)
    ensures var after := [NewBlock(mem, blockHdr, size)] + blocks;
            && BlocksOk(after, poolHdr, blockHdr) && Sound(after, handed)
            && Holding(p, after, l[mem := Lease(size, p)])
  {
    var b := NewBlock(mem, blockHdr, size);
    HoldingGrow(p, blocks, l, b);
    forall i | 0 <= i < |blocks|
      ensures Disjoint(b.mem, b.end - b.mem, blocks[i].mem, blocks[i].end - blocks[i].mem)
    {
      assert Covers(l, p, blocks[i]);
    }
    GrowKeeps(blocks, handed, b, poolHdr, blockHdr);
  }

  lemma FirstBlockHolds(p: Pool, l: map<int, Lease>, mem: int, size: nat, poolHdr: nat, blockHdr: nat)
    requires mem % EM_POOL_ALIGNMENT == poolHdr % EM_POOL_ALIGNMENT == blockHdr % EM_POOL_ALIGNMENT == 0
    requires poolHdr + blockHdr <= size
    requires forall m :: m in l ==> l[m].pool != p
    ensures var blocks := [NewBlock(mem, poolHdr + blockHdr, size)];
            BlocksOk(blocks, poolHdr, blockHdr) && Sound(blocks, []) && Holding(p, blocks, l[mem := Lease(size, p)])
  {
    assert AlignPtr(mem + poolHdr + blockHdr) == mem + poolHdr + blockHdr;
    assert [NewBlock(mem, poolHdr + blockHdr, size)][0].mem == mem;
  }

  lemma CoversRemove(l: map<int, Lease>, p: Pool, b: Block, mem: int)
    requires Covers(l, p, b) && b.mem != mem
    ensures Covers(l - {mem}, p, b)
  {
  }

  lemma HoldingRemove(p: Pool, blocks: seq<Block>, l: map<int, Lease>, i: nat, poolHdr: nat, blockHdr: nat)
    requires BlocksOk(blocks, poolHdr, blockHdr) && blockHdr > 0 && Holding(p, blocks, l) && i < |blocks|
    ensures Holding(p, blocks[..i] + blocks[i + 1..], l - {blocks[i].mem})
  {
    hide BlocksOk, Covers;
    var after, k := blocks[..i] + blocks[i + 1..], l - {blocks[i].mem};
    forall j | 0 <= j < |after|
      ensures Covers(k, p, after[j])
    {
      if j < i {
        DistinctBlocks(blocks, j, i, poolHdr, blockHdr);
      } else {
        DistinctBlocks(blocks, i, j + 1, poolHdr, blockHdr);
      }
      CoversRemove(l, p, blocks[if j < i then j else j + 1], blocks[i].mem);
    }
    forall m | m in k && k[m].pool == p
      ensures At(after, m)
    {
      var j :| 0 <= j < |blocks| && blocks[j].mem == m;
      assert after[if j < i then j else j - 1].mem == m;
    }
  }

  /** Only leases of pool p differ. */
  ghost predicate OnlyOf(p: Pool, l: map<int, Lease>, k: map<int, Lease>) {
    && (forall m :: m in l && l[m].pool != p ==> m in k && k[m] == l[m])
    && (forall m :: m in k && k[m].pool != p ==> m in l && l[m] == k[m])
  }

  // ---------- The factory ----------

  /** The part of a pool factory that the allocation policy uses. */
  class Factory {
    const poolHdr: nat   // sizeof(em_pool_t)
    const blockHdr: nat  // sizeof(em_pool_block)

    var usedSize: int
    var peakUsedSize: int
    ghost var leases: map<int, Lease>

    ghost predicate Valid()
      reads this
    {
      && poolHdr > 0 && blockHdr > 0 && poolHdr % EM_POOL_ALIGNMENT == 0 && blockHdr % EM_POOL_ALIGNMENT == 0
      && usedSize == Leased(leases) <= peakUsedSize
      && (forall m :: m in leases ==> 0 < leases[m].size)
      && (forall m, n :: m in leases && n in leases && m != n ==> Disjoint(m, leases[m].size, n, leases[n].size))
    }

    /** What an allocator may answer: no memory, or aligned memory that nobody holds. */
    ghost predicate MayGrant(grant: Option<int>, size: nat)
      reads this`leases
    {
      match grant
      case None => true
      case Some(mem) =>
        && mem % EM_POOL_ALIGNMENT == 0 && mem > 0
        && ClearOf(leases, mem, size)
    }

    constructor (poolHdr: nat, blockHdr: nat)
      requires poolHdr > 0 && blockHdr > 0 && poolHdr % EM_POOL_ALIGNMENT == 0 && blockHdr % EM_POOL_ALIGNMENT == 0
      ensures Valid() && leases == map[] && usedSize == 0
      ensures this.poolHdr == poolHdr && this.blockHdr == blockHdr
    {
      this.poolHdr, this.blockHdr := poolHdr, blockHdr;
      usedSize, peakUsedSize, leases := 0, 0, map[];
    }

    method OnBlockAlloc(size: nat)
      modifies this`usedSize, this`peakUsedSize
      ensures usedSize == old(usedSize) + size
      ensures peakUsedSize == if usedSize > old(peakUsedSize) then usedSize else old(peakUsedSize)
    {
      usedSize := usedSize + size;
      if usedSize > peakUsedSize {
        peakUsedSize := usedSize;
      }
    }

    method OnBlockFree(size: nat)
      modifies this`usedSize
      ensures usedSize == old(usedSize) - size
    {
      usedSize := usedSize - size;
    }

    /** default_block_alloc.  A refused request changes nothing but, possibly, the peak. */
    method BlockAlloc(size: nat, grant: Option<int>, ghost p: Pool) returns (mem: Option<int>)
      requires Valid() && size > 0 && MayGrant(grant, size)
      modifies this
      ensures Valid() && mem == grant
      ensures leases == if mem.Some? then old(leases)[mem.value := Lease(size, p)] else old(leases)
      ensures mem.Some? ==> mem.value !in old(leases)
      ensures usedSize == old(usedSize) + if mem.Some? then size else 0
      ensures peakUsedSize == if old(usedSize) + size > old(peakUsedSize) then old(usedSize) + size
          else old(peakUsedSize)
    {
      OnBlockAlloc(size);
      mem := grant;
      if mem.None? {
        OnBlockFree(size);
      } else {
        LeasedAdd(leases, mem.value, Lease(size, p));
        leases := leases[mem.value := Lease(size, p)];
      }
    }

    /** default_block_free, called with the size that the memory was asked with. */
    method BlockFree(mem: int, size: nat)
      requires Valid() && mem in leases && leases[mem].size == size
      modifies this`usedSize, this`leases
      ensures Valid()
      ensures leases == old(leases) - {mem}
      ensures 0 <= usedSize == old(usedSize) - size
    {
      OnBlockFree(size);
      LeasedRemove(leases, mem);
      leases := leases - {mem};
    }
  }

  // ---------- The pool ----------

  class Pool {
    const factory: Factory
    var blocks: seq<Block>  // block_list, from its front
    var capacity: int
    var incrementSize: nat
    var factoryData: nat
    ghost var handed: seq<Range>  // what was allocated since the pool was created or reset

    /** The pool is consistent, and holds exactly the leases l that are its own. */
    ghost predicate ValidIn(l: map<int, Lease>)
      reads this`blocks, this`handed, this`capacity
    {
      && blocks != [] && BlocksOk(blocks, factory.poolHdr, factory.blockHdr)
      && Sound(blocks, handed)
      && capacity == Total(blocks)
      && Holding(this, blocks, l)
    }

    ghost predicate Valid()
      reads this`blocks, this`handed, this`capacity, factory
    {
      factory.Valid() && ValidIn(factory.leases)
    }

    /** The block that came with the pool. */
    function FirstBlock(): Block
      reads this`blocks
      requires blocks != []
    {
      blocks[|blocks| - 1]
    }

    /** The pool is as em_pool_create_int leaves it for this initial size. */
    ghost predicate Fresh(size: nat)
      reads this`blocks, this`handed, this`capacity
    {
      && |blocks| == 1 && handed == [] && capacity == size
      && blocks[0].end == blocks[0].mem + size
      && blocks[0].buf == blocks[0].mem + factory.poolHdr + factory.blockHdr
      && blocks[0].cur == AlignPtr(blocks[0].buf)
    }

    constructor (factory: Factory, incrementSize: nat)
      ensures this.factory == factory && this.incrementSize == incrementSize && blocks == [] && handed == []
    {
      this.factory, this.incrementSize := factory, incrementSize;
      blocks, capacity, factoryData, handed := [], 0, 0, [];
    }

    /** em_pool_create_int.  Here the object comes before its memory. */
    static method Create(f: Factory, initial: nat, increment: nat, grant: Option<int>) returns (p: Option<Pool>)
      requires f.Valid() && f.MayGrant(grant, initial)
      modifies f
      ensures f.Valid() && f.peakUsedSize >= old(f.peakUsedSize)
      ensures p.Some? <==> initial >= f.poolHdr + f.blockHdr && grant.Some?
      ensures p.None? ==> f.leases == old(f.leases) && f.usedSize == old(f.usedSize)
      ensures p.Some? ==>
        var pool := p.value;
        && fresh(pool) && pool.factory == f && pool.Valid() && pool.Fresh(initial) && pool.capacity == initial &&
            pool.incrementSize == increment
        && grant.value !in old(f.leases)
        && f.leases == old(f.leases)[grant.value := Lease(initial, pool)] && f.usedSize == old(f.usedSize) + initial
    {
      if initial < f.poolHdr + f.blockHdr {
        return None;
      }
      hide BlocksOk, Sound, Holding, ClearOf;
      var pool := new Pool(f, increment);
      assert f.leases == old(f.leases);
      var mem := f.BlockAlloc(initial, grant, pool);
      if mem.None? {
        return None;
      }
      pool.blocks := [NewBlock(mem.value, f.poolHdr + f.blockHdr, initial)];
      pool.capacity := initial;
      assert pool.capacity == Total(pool.blocks);
      FirstBlockHolds(pool, old(f.leases), mem.value, initial, f.poolHdr, f.blockHdr);
      p := Some(pool);
    }

    /** em_pool_get_used_size.  What is not used is the room left in the blocks. */
    method GetUsedSize() returns (used: int)
      requires Valid()
      ensures used == factory.poolHdr + Used(blocks, factory.blockHdr)
      ensures capacity - used == Room(blocks)
    {
      used := factory.poolHdr;
      var i := 0;
      while i < |blocks|
        invariant 0 <= i <= |blocks|
        invariant used + Used(blocks[i..], factory.blockHdr) == factory.poolHdr + Used(blocks, factory.blockHdr)
      {
        used := used + (blocks[i].cur - blocks[i].buf) + factory.blockHdr;
        assert blocks[i..][1..] == blocks[i + 1..];
        i := i + 1;
      }
      Conservation(blocks, factory.poolHdr, factory.blockHdr);
    }

    /** em_pool_alloc_from_block */
    method AllocFromBlock(i: nat, size: nat) returns (r: Option<int>)
      requires Valid() && i < |blocks|
      modifies this`blocks, this`handed
      ensures Valid()
      ensures r.None? <==>
        forall n: nat :: Aligned(n) && n >= size ==> old(blocks)[i].cur + n > old(blocks)[i].end
      ensures r.None? ==> blocks == old(blocks) && handed == old(handed)
      ensures r.Some? ==>
        && r.value == old(blocks)[i].cur && blocks == old(blocks)[i := Bump(old(blocks)[i], size)]
        && handed == old(handed) + [Range(r.value, RoundUp(size))]
    {
      hide BlocksOk, Sound, Holding, factory.Valid;
      FitsIff(blocks[i], size);
      var rounded := RoundUp(size);
      if blocks[i].end - blocks[i].cur >= rounded {
        BumpKeeps(blocks, handed, i, size, factory.poolHdr, factory.blockHdr);
        TotalUpdate(blocks, i, Bump(blocks[i], size));
        HoldingUpdate(this, blocks, factory.leases, i, Bump(blocks[i], size));
        r := Some(blocks[i].cur);
        handed := handed + [Range(blocks[i].cur, rounded)];
        blocks := blocks[i := blocks[i].(cur := blocks[i].cur + rounded)];
      } else {
        r := None;
      }
    }

    /** em_pool_create_block */
    method CreateBlock(size: nat, grant: Option<int>) returns (ok: bool)
      requires Valid() && size >= factory.blockHdr && factory.MayGrant(grant, size)
      modifies this`blocks, this`capacity, factory
      ensures Valid() && OnlyOf(this, old(factory.leases), factory.leases)
      ensures ok <==> grant.Some?
      ensures factory.usedSize - capacity == old(factory.usedSize - capacity)
      ensures factory.usedSize >= old(factory.usedSize)
      ensures if ok then blocks == [NewBlock(grant.value, factory.blockHdr, size)] + old(blocks)
              else blocks == old(blocks) && capacity == old(capacity)
    {
      hide BlocksOk, Sound, Holding, ClearOf;
      var mem := factory.BlockAlloc(size, grant, this);
      if mem.None? {
        return false;
      }
      capacity := capacity + size;
      var b := NewBlock(mem.value, factory.blockHdr, size);
      GrowWithLease(this, blocks, handed, old(factory.leases), mem.value, size, factory.poolHdr, factory.blockHdr);
      blocks := [b] + blocks;
      ok := true;
    }

    /** The growing part of em_pool_allocate_find, in which the retry cannot fail. */
    method Grow(size: nat, grant: Option<int>) returns (r: Option<int>)
      requires Valid() && incrementSize > 0
      requires factory.MayGrant(grant, GrowSize(size, incrementSize, factory.blockHdr))
      modifies this`blocks, this`handed, this`capacity, factory
      ensures Valid() && OnlyOf(this, old(factory.leases), factory.leases)
      ensures r.Some? <==> grant.Some?
      ensures if r.None? then blocks == old(blocks) else
        var b := NewBlock(grant.value, factory.blockHdr, GrowSize(size, incrementSize, factory.blockHdr));
        r == Some(b.cur) && blocks == [Bump(b, size)] + old(blocks)
      ensures handed == if r.Some? then old(handed) + [Range(r.value, RoundUp(size))] else old(handed)
      ensures factory.usedSize - capacity == old(factory.usedSize - capacity)
      ensures capacity >= old(capacity)
    {
      hide BlocksOk, Sound, Holding, ClearOf, NewBlock;
      var blockSize;
      if incrementSize < size + factory.blockHdr + EM_POOL_ALIGNMENT {
        var count := (size + incrementSize + factory.blockHdr + EM_POOL_ALIGNMENT) / incrementSize;
        blockSize := count * incrementSize;
      } else {
        blockSize := incrementSize;
      }
      GrowSizeIsLeast(size, incrementSize, factory.blockHdr);
      var ok := CreateBlock(blockSize, grant);
      if !ok {
        return None;
      }
      GrowthSuffices(grant.value, size, incrementSize, factory.blockHdr);
      FitsIff(blocks[0], size);
      r := AllocFromBlock(0, size);
      assert r.Some?;
    }

    /** em_pool_allocate_find */
    method AllocateFind(size: nat, grant: Option<int>) returns (r: Option<int>)
      requires Valid()
      requires incrementSize > 0 ==> factory.MayGrant(grant, GrowSize(size, incrementSize, factory.blockHdr))
      modifies this`blocks, this`handed, this`capacity, factory
      ensures Valid() && OnlyOf(this, old(factory.leases), factory.leases)
      ensures Allocated(old(blocks), blocks, size, grant, r)
      ensures handed == if r.Some? then old(handed) + [Range(r.value, RoundUp(size))] else old(handed)
      ensures factory.usedSize - capacity == old(factory.usedSize - capacity)
      ensures capacity >= old(capacity)
    {
      hide BlocksOk, Sound, Holding, ClearOf, Fits, GrowSize, NewBlock, Total, Leased;
      var i := 0;
      while i < |blocks|
        invariant 0 <= i <= FirstFit(blocks, size) && Valid() && blocks == old(blocks) && handed == old(handed)
        invariant capacity == old(capacity)
        invariant factory.leases == old(factory.leases) && factory.usedSize == old(factory.usedSize)
      {
        FitsIff(blocks[i], size);
        r := AllocFromBlock(i, size);
        if r.Some? {
          return;
        }
        i := i + 1;
      }
      if incrementSize == 0 {
        return None;
      }
      r := Grow(size, grant);
    }

    /** How an allocation changes the blocks: the first that has room serves it, and only when there is none does
        an expandable pool ask for a new block. */
    ghost predicate Allocated(was: seq<Block>, now: seq<Block>, size: nat, grant: Option<int>, r: Option<int>)
      reads this`incrementSize
    {
      var i := FirstFit(was, size);
      if i < |was| then
        r == Some(was[i].cur) && now == was[i := Bump(was[i], size)]
      else if incrementSize > 0 && grant.Some? then
        var b := NewBlock(grant.value, factory.blockHdr, GrowSize(size, incrementSize, factory.blockHdr));
        r == Some(b.cur) && now == [Bump(b, size)] + was
      else
        r == None && now == was
    }

    lemma FirstBlockStays(was: seq<Block>, size: nat, grant: Option<int>, r: Option<int>)
      requires was != [] && Allocated(was, blocks, size, grant, r)
      ensures blocks != []
      ensures FirstBlock().mem == was[|was| - 1].mem && FirstBlock().end == was[|was| - 1].end
    {
    }

    /** When an aligned size n that is just enough for the request ends inside block i, but not inside any block
        before, the request is served from block i. */
    lemma AllocatedAt(was: seq<Block>, now: seq<Block>, size: nat, grant: Option<int>, r: Option<int>, i: nat, n: nat)
      requires Allocated(was, now, size, grant, r)
      requires i < |was| && n % EM_POOL_ALIGNMENT == 0 && size <= n < size + EM_POOL_ALIGNMENT
      requires was[i].cur + n <= was[i].end && forall j :: 0 <= j < i ==> was[j].cur + n > was[j].end
      ensures r == Some(was[i].cur) && now == was[i := was[i].(cur := was[i].cur + n)]
    {
      FirstFitIs(was, size, n, i);
    }

    /** When it ends inside none, an expandable pool serves the request from a new block, right after its header. */
    lemma AllocatedNew(was: seq<Block>, now: seq<Block>, size: nat, grant: Option<int>, r: Option<int>, n: nat)
      requires Allocated(was, now, size, grant, r)
      requires n % EM_POOL_ALIGNMENT == 0 && size <= n < size + EM_POOL_ALIGNMENT
      requires forall j :: 0 <= j < |was| ==> was[j].cur + n > was[j].end
      requires incrementSize > 0 && grant.Some?
      requires grant.value % EM_POOL_ALIGNMENT == 0 && factory.blockHdr % EM_POOL_ALIGNMENT == 0
      ensures |now| == |was| + 1 && now[1..] == was
      ensures var b := now[0];
              && r == Some(b.buf) && b.mem == grant.value && b.buf == b.mem + factory.blockHdr
              && b.cur == b.buf + n <= b.end && exists k: nat :: b.end - b.mem == k * incrementSize
    {
      hide RoundUp, FirstFit, GrowSize;
      FirstFitIs(was, size, n, |was|);
      GrowthSuffices(grant.value, size, incrementSize, factory.blockHdr);
      GrowSizeIsLeast(size, incrementSize, factory.blockHdr);
    }

    lemma NoneIff(was: seq<Block>, now: seq<Block>, size: nat, grant: Option<int>, r: Option<int>)
      requires Allocated(was, now, size, grant, r)
      ensures r.None? <==>
        && (incrementSize == 0 || grant.None?)
        && forall i, n: nat :: 0 <= i < |was| && Aligned(n) && n >= size ==> was[i].cur + n > was[i].end
    {
      forall i | 0 <= i < |was|
        ensures Fits(was[i], size) <==> exists n: nat :: Aligned(n) && n >= size && was[i].cur + n <= was[i].end
      {
        FitsIff(was[i], size);
      }
    }

    /** em_pool_alloc.  It returns null exactly if no block has room and there is no increment, or no memory, for a
        new one. */
    method Alloc(size: nat, grant: Option<int>) returns (r: Option<int>)
      requires Valid()
      requires incrementSize > 0 ==> factory.MayGrant(grant, GrowSize(size, incrementSize, factory.blockHdr))
      modifies this`blocks, this`handed, this`capacity, factory
      ensures Valid() && OnlyOf(this, old(factory.leases), factory.leases)
      ensures Allocated(old(blocks), blocks, size, grant, r)
      ensures var was := old(blocks);
              r.None? <==>
                && (incrementSize == 0 || grant.None?)
                && forall i, n: nat :: 0 <= i < |was| && Aligned(n) && n >= size ==> was[i].cur + n > was[i].end
      ensures handed == if r.Some? then old(handed) + [Range(r.value, RoundUp(size))] else old(handed)
      ensures factory.usedSize - capacity == old(factory.usedSize - capacity)
      ensures capacity >= old(capacity)
    {
      hide BlocksOk, Sound, Holding, ClearOf, GrowSize, NewBlock, Total, Leased;
      FitsIff(blocks[0], size);
      r := AllocFromBlock(0, size);
      if r.None? {
        r := AllocateFind(size, grant);
      }
      NoneIff(old(blocks), blocks, size, grant, r);
    }

    /** What was handed out is aligned, lies behind a header in memory that the pool holds, and does not overlap. */
    lemma ValidMeans(j: nat)
      requires Valid() && j < |handed|
      ensures handed[j].addr % EM_POOL_ALIGNMENT == 0
      ensures exists m :: m in factory.leases && factory.leases[m].pool == this &&
                m + factory.blockHdr <= handed[j].addr &&
                handed[j].addr + handed[j].size <= m + factory.leases[m].size
      ensures forall k :: 0 <= k < |handed| && k != j && handed[j].size > 0 && handed[k].size > 0 ==>
                handed[j].addr + handed[j].size <= handed[k].addr || handed[k].addr + handed[k].size <= handed[j].addr
      ensures factory.usedSize == Leased(factory.leases)
    {
      var r := handed[j];
      assert r in handed;
      var i :| 0 <= i < |blocks| && Holds(blocks[i], r);
      assert BlockOk(blocks[i], Header(blocks, i, factory.poolHdr, factory.blockHdr));
      assert Covers(factory.leases, this, blocks[i]);
      assert blocks[i].mem in factory.leases;
      forall k | 0 <= k < |handed| && k != j
        ensures Apart(handed[j], handed[k])
      {
        assert if j < k then Apart(handed[j], handed[k]) else Apart(handed[k], handed[j]);
      }
    }

    /** reset_pool.  Every added block goes back with the size it was asked with, and only the first one stays. */
    method Reset()
      requires Valid()
      modifies this`blocks, this`handed, this`capacity, factory`usedSize, factory`leases
      ensures Valid() && OnlyOf(this, old(factory.leases), factory.leases)
      ensures Fresh(old(FirstBlock().end - FirstBlock().mem)) && FirstBlock().mem == old(FirstBlock().mem)
      ensures factory.usedSize - capacity == old(factory.usedSize - capacity)
      ensures capacity <= old(capacity)
    {
      hide BlocksOk, Holding;
      ghost var first := FirstBlock();
      while |blocks| > 1
        invariant factory.Valid() && blocks != [] && BlocksOk(blocks, factory.poolHdr, factory.blockHdr)
        invariant Holding(this, blocks, factory.leases) && OnlyOf(this, old(factory.leases), factory.leases)
        invariant FirstBlock() == first && factory.usedSize - Total(blocks) == old(factory.usedSize - capacity)
        invariant Total(blocks) <= old(capacity)
      {
        var i := |blocks| - 2;
        var b := blocks[i];
        RemoveKeeps(blocks, i, factory.poolHdr, factory.blockHdr);
        HoldingRemove(this, blocks, factory.leases, i, factory.poolHdr, factory.blockHdr);
        TotalRemove(blocks, i);
        HoldingMeans(this, blocks, factory.leases, i);
        blocks := blocks[..i] + blocks[i + 1..];
        factory.BlockFree(b.mem, b.end - b.mem);
      }
      var b := blocks[0];
      EmptyFirst(blocks, factory.poolHdr, factory.blockHdr);
      HoldingUpdate(this, blocks, factory.leases, 0, b.(cur := AlignPtr(b.buf)));
      assert blocks[0 := b.(cur := AlignPtr(b.buf))] == [b.(cur := AlignPtr(b.buf))];
      blocks := [b.(cur := AlignPtr(b.buf))];
      capacity := b.end - b.mem;
      handed := [];
    }

    /** em_pool_destroy_int.  Nothing of the pool's memory stays leased. */
    method Destroy()
      requires Valid()
      modifies this`blocks, this`handed, this`capacity, factory`usedSize, factory`leases
      ensures factory.Valid() && OnlyOf(this, old(factory.leases), factory.leases)
      ensures forall m :: m in factory.leases ==> factory.leases[m].pool != this
      ensures factory.usedSize == old(factory.usedSize - capacity)
    {
      Reset();
      factory.BlockFree(blocks[0].mem, blocks[0].end - blocks[0].mem);
    }
  }
}
