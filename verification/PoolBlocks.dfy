// The blocks of a memory pool as values: src/pool.c and include/em/pool_i.h.
// Addresses are integers, and arithmetic on sizes does not wrap.

module PoolBlocks {
  const EM_POOL_ALIGNMENT := 4

  /** The rounding in em_pool_alloc_from_block gives the least aligned size that is enough. */
  function RoundUp(size: nat): (r: nat)
    ensures r % EM_POOL_ALIGNMENT == 0 && size <= r < size + EM_POOL_ALIGNMENT
  {
    if size % EM_POOL_ALIGNMENT != 0 then size + EM_POOL_ALIGNMENT - (size +
        EM_POOL_ALIGNMENT) % EM_POOL_ALIGNMENT else size
  }

  /** ALIGN_PTR */
  function AlignPtr(p: int): int {
    p + (-p) % EM_POOL_ALIGNMENT
  }

  /** ALIGN_PTR gives the next aligned address. */
  lemma AlignPtrIsNext(p: int)
    ensures AlignPtr(p) % EM_POOL_ALIGNMENT == 0 && p <= AlignPtr(p) < p + EM_POOL_ALIGNMENT
  {
  }

  /** em_pool_block, with the address mem of the memory that it came with. */
  datatype Block = Block(mem: int, buf: int, cur: int, end: int)

  /** A range handed out to the user. */
  datatype Range = Range(addr: int, size: nat)

  predicate Aligned(n: int) {
    n % EM_POOL_ALIGNMENT == 0
  }

  predicate Disjoint(a: int, m: int, b: int, n: int) {
    a + m <= b || b + n <= a
  }

  predicate Apart(r: Range, s: Range) {
    r.size == 0 || s.size == 0 || Disjoint(r.addr, r.size, s.addr, s.size)
  }

  // ---------- Blocks ----------

  predicate Fits(b: Block, size: nat) {
    b.end - b.cur >= RoundUp(size)
  }

  /** A block has room exactly if some aligned size that is enough ends inside it. */
  lemma FitsIff(b: Block, size: nat)
    ensures Fits(b, size) <==> exists n: nat :: Aligned(n) && n >= size && b.cur + n <= b.end
  {
    assert Aligned(RoundUp(size));
  }

  function Bump(b: Block, size: nat): Block {
    b.(cur := b.cur + RoundUp(size))
  }

  /** The index of the first block with room, or |blocks|. */
  function FirstFit(blocks: seq<Block>, size: nat): (i: nat)
    ensures i <= |blocks| && (i < |blocks| ==> Fits(blocks[i], size))
    ensures forall j :: 0 <= j < i ==> !Fits(blocks[j], size)
  {
    if blocks == [] || Fits(blocks[0], size) then 0 else 1 + FirstFit(blocks[1..], size)
  }

  /** In terms of the least aligned size n that is enough. */
  lemma FirstFitIs(blocks: seq<Block>, size: nat, n: nat, i: nat)
    requires n % EM_POOL_ALIGNMENT == 0 && size <= n < size + EM_POOL_ALIGNMENT && i <= |blocks|
    requires i < |blocks| ==> blocks[i].cur + n <= blocks[i].end
    requires forall j :: 0 <= j < i ==> blocks[j].cur + n > blocks[j].end
    ensures n == RoundUp(size) && i == FirstFit(blocks, size)
  {
    hide RoundUp, FirstFit;
    assert n == RoundUp(size);
    assert forall j :: 0 <= j < i ==> !Fits(blocks[j], size);
  }

  /** A block just created in memory at mem, after a header. */
  function NewBlock(mem: int, header: nat, size: nat): Block {
    Block(mem, mem + header, AlignPtr(mem + header), mem + size)
  }

  function Used(blocks: seq<Block>, header: nat): int {
    if blocks == [] then 0 else blocks[0].cur - blocks[0].buf + header + Used(blocks[1..], header)
  }

  function Total(blocks: seq<Block>): int {
    if blocks == [] then 0 else blocks[0].end - blocks[0].mem + Total(blocks[1..])
  }

  function Room(blocks: seq<Block>): int {
    if blocks == [] then 0 else blocks[0].end - blocks[0].cur + Room(blocks[1..])
  }

  /** The size of the block that em_pool_allocate_find asks for. */
  function GrowSize(size: nat, increment: nat, header: nat): nat
    requires increment > 0
  {
    if increment < size + header + EM_POOL_ALIGNMENT then
      ((size + increment + header + EM_POOL_ALIGNMENT) / increment) * increment
    else increment
  }

  /** The size is a whole number of increments, and the least one that exceeds the request with its overhead,
      unless a single increment just equals it. */
  lemma GrowSizeIsLeast(size: nat, increment: nat, header: nat)
    requires increment > 0
    ensures var need := size + header + EM_POOL_ALIGNMENT;
            var g := GrowSize(size, increment, header);
            && (exists k: nat :: g == k * increment)
            && g >= need && (g == increment || g - increment <= need < g)
  {
    var need := size + header + EM_POOL_ALIGNMENT;
    if increment < need {
      var x := need + increment;
      DivisionBounds(x, increment);
      assert x == size + increment + header + EM_POOL_ALIGNMENT;
      assert GrowSize(size, increment, header) == (x / increment) * increment;
    } else {
      assert GrowSize(size, increment, header) == 1 * increment;
    }
  }

  lemma DivisionBounds(x: nat, d: nat)
    requires d > 0
    ensures (x / d) * d <= x < (x / d) * d + d
  {
  }

  /** Growth always suffices: in a new aligned block of that size the request fits. */
  lemma GrowthSuffices(mem: int, size: nat, increment: nat, header: nat)
    requires increment > 0 && mem % EM_POOL_ALIGNMENT == 0 && header % EM_POOL_ALIGNMENT == 0
    ensures Fits(NewBlock(mem, header, GrowSize(size, increment, header)), size)
  {
    hide GrowSize;
    GrowSizeIsLeast(size, increment, header);
    assert AlignPtr(mem + header) == mem + header;
  }

  // ---------- What was handed out ----------

  ghost predicate Holds(b: Block, r: Range) {
    b.buf <= r.addr && r.addr + r.size <= b.cur
  }

  ghost predicate InSomeBlock(blocks: seq<Block>, r: Range) {
    exists i :: 0 <= i < |blocks| && Holds(blocks[i], r)
  }

  /** Every range is aligned and lies in the used part of one block, and no two overlap. */
  ghost predicate Sound(blocks: seq<Block>, handed: seq<Range>) {
    && (forall r :: r in handed ==> r.addr % EM_POOL_ALIGNMENT == 0 && InSomeBlock(blocks, r))
    && (forall j, k :: 0 <= j < k < |handed| ==> Apart(handed[j], handed[k]))
  }

  ghost predicate BlockOk(b: Block, header: nat) {
    && b.buf == b.mem + header
    && AlignPtr(b.buf) <= b.cur <= b.end && b.cur % EM_POOL_ALIGNMENT == 0
  }

  ghost predicate BlocksApart(blocks: seq<Block>) {
    forall i, j :: 0 <= i < j < |blocks| ==>
      Disjoint(blocks[i].mem, blocks[i].end - blocks[i].mem, blocks[j].mem, blocks[j].end - blocks[j].mem)
  }

  /** The first block of a pool, which is the last in the list, has the pool itself in front of its header. */
  function Header(blocks: seq<Block>, i: nat, poolHdr: nat, blockHdr: nat): nat {
    if i == |blocks| - 1 then poolHdr + blockHdr else blockHdr
  }

  ghost predicate BlocksOk(blocks: seq<Block>, poolHdr: nat, blockHdr: nat) {
    && blocks != []
    && (forall i :: 0 <= i < |blocks| ==> BlockOk(blocks[i], Header(blocks, i, poolHdr, blockHdr)))
    && BlocksApart(blocks)
  }

  /** Allocating from block i keeps everything sound. */
  lemma BumpKeeps(blocks: seq<Block>, handed: seq<Range>, i: nat, size: nat, poolHdr: nat, blockHdr: nat)
    requires BlocksOk(blocks, poolHdr, blockHdr) && Sound(blocks, handed) && i < |blocks| && Fits(blocks[i], size)
    ensures var after := blocks[i := Bump(blocks[i], size)];
            && BlocksOk(after, poolHdr, blockHdr)
            && Sound(after, handed + [Range(blocks[i].cur, RoundUp(size))])
  {
    hide RoundUp;
    var after := blocks[i := Bump(blocks[i], size)];
    var r := Range(blocks[i].cur, RoundUp(size));
    assert Holds(after[i], r);
    forall s | s in handed
      ensures InSomeBlock(after, s) && Apart(s, r)
    {
      var k :| 0 <= k < |blocks| && Holds(blocks[k], s);
      assert Holds(after[k], s);
      assert BlockOk(blocks[k], Header(blocks, k, poolHdr, blockHdr));
      assert BlockOk(blocks[i], Header(blocks, i, poolHdr, blockHdr));
    }
    forall k | 0 <= k < |after|
      ensures BlockOk(after[k], Header(after, k, poolHdr, blockHdr))
    {
      assert BlockOk(blocks[k], Header(blocks, k, poolHdr, blockHdr));
    }
  }

  /** So does putting a new block in front. */
  lemma GrowKeeps(blocks: seq<Block>, handed: seq<Range>, b: Block, poolHdr: nat, blockHdr: nat)
    requires BlocksOk(blocks, poolHdr, blockHdr) && Sound(blocks, handed) && BlockOk(b, blockHdr)
    requires forall i :: 0 <= i < |blocks| ==>
               Disjoint(b.mem, b.end - b.mem, blocks[i].mem, blocks[i].end - blocks[i].mem)
    ensures BlocksOk([b] + blocks, poolHdr, blockHdr) && Sound([b] + blocks, handed)
  {
    var after := [b] + blocks;
    forall r | r in handed
      ensures InSomeBlock(after, r)
    {
      var k :| 0 <= k < |blocks| && Holds(blocks[k], r);
      assert after[k + 1] == blocks[k];
    }
    forall k | 0 <= k < |after|
      ensures BlockOk(after[k], Header(after, k, poolHdr, blockHdr))
    {
      if k > 0 {
        assert BlockOk(blocks[k - 1], Header(blocks, k - 1, poolHdr, blockHdr));
      }
    }
  }

  /** Removing a block that is not the pool's first keeps the rest in order. */
  lemma RemoveKeeps(blocks: seq<Block>, i: nat, poolHdr: nat, blockHdr: nat)
    requires BlocksOk(blocks, poolHdr, blockHdr) && i < |blocks| - 1
    ensures BlocksOk(blocks[..i] + blocks[i + 1..], poolHdr, blockHdr)
  {
  }

  /** Emptying the first block when it is the only one. */
  lemma EmptyFirst(blocks: seq<Block>, poolHdr: nat, blockHdr: nat)
    requires BlocksOk(blocks, poolHdr, blockHdr) && |blocks| == 1
    ensures var b := blocks[0];
            && b.buf == b.mem + poolHdr + blockHdr
            && b.mem + poolHdr + blockHdr <= b.end
            && BlocksOk([b.(cur := AlignPtr(b.buf))], poolHdr, blockHdr)
  {
    assert BlockOk(blocks[0], Header(blocks, 0, poolHdr, blockHdr));
  }

  lemma DistinctBlocks(blocks: seq<Block>, i: nat, j: nat, poolHdr: nat, blockHdr: nat)
    requires BlocksOk(blocks, poolHdr, blockHdr) && blockHdr > 0 && i < j < |blocks|
    ensures blocks[i].mem != blocks[j].mem
  {
  }

  /** Every byte of a pool's memory is either in use, headers and padding included, or room. */
  lemma {:induction false} Conservation(blocks: seq<Block>, poolHdr: nat, blockHdr: nat)
    requires BlocksOk(blocks, poolHdr, blockHdr)
    ensures Total(blocks) == poolHdr + Used(blocks, blockHdr) + Room(blocks)
  {
    assert BlockOk(blocks[0], Header(blocks, 0, poolHdr, blockHdr));
    var rest := blocks[1..];
    if rest == [] {
      assert Total(rest) == Used(rest, blockHdr) == Room(rest) == 0;
    } else {
      RestOk(blocks, poolHdr, blockHdr);
      Conservation(rest, poolHdr, blockHdr);
    }
  }

  /** The first block is a part of the capacity. */
  lemma {:induction false} FirstInTotal(blocks: seq<Block>, poolHdr: nat, blockHdr: nat)
    requires BlocksOk(blocks, poolHdr, blockHdr)
    ensures blocks[|blocks| - 1].end - blocks[|blocks| - 1].mem <= Total(blocks)
  {
    assert BlockOk(blocks[0], Header(blocks, 0, poolHdr, blockHdr));
    if |blocks| == 1 {
      assert Total(blocks[1..]) == 0;
    } else {
      RestOk(blocks, poolHdr, blockHdr);
      FirstInTotal(blocks[1..], poolHdr, blockHdr);
    }
  }

  /** An allocation turns as much room into used memory as it hands out. */
  lemma {:induction false} BumpMoves(blocks: seq<Block>, i: nat, size: nat, header: nat)
    requires i < |blocks|
    ensures var after, n := blocks[i := Bump(blocks[i], size)], RoundUp(size);
            && Used(after, header) == Used(blocks, header) + n
            && Room(after) == Room(blocks) - n && Total(after) == Total(blocks)
  {
    var after := blocks[i := Bump(blocks[i], size)];
    if i == 0 {
      assert after[1..] == blocks[1..];
    } else {
      BumpMoves(blocks[1..], i - 1, size, header);
      assert after[1..] == blocks[1..][i - 1 := Bump(blocks[i], size)];
    }
  }

  /** A new block adds its whole size to the total, its header to the used memory, and what follows to the room. */
  lemma GrowAdds(blocks: seq<Block>, mem: int, size: nat, header: nat)
    requires mem % EM_POOL_ALIGNMENT == 0 && header % EM_POOL_ALIGNMENT == 0
    ensures var after := [NewBlock(mem, header, size)] + blocks;
            && Used(after, header) == Used(blocks, header) + header
            && Room(after) == Room(blocks) + size - header && Total(after) == Total(blocks) + size
  {
    assert ([NewBlock(mem, header, size)] + blocks)[1..] == blocks;
  }

  lemma RestOk(blocks: seq<Block>, poolHdr: nat, blockHdr: nat)
    requires BlocksOk(blocks, poolHdr, blockHdr) && |blocks| > 1
    ensures BlocksOk(blocks[1..], poolHdr, blockHdr)
  {
  }

  lemma {:induction false} TotalUpdate(blocks: seq<Block>, i: nat, b: Block)
    requires i < |blocks|
    ensures Total(blocks[i := b]) == Total(blocks) + (b.end - b.mem) - (blocks[i].end - blocks[i].mem)
  {
    if i == 0 {
      assert blocks[i := b][1..] == blocks[1..];
    } else {
      TotalUpdate(blocks[1..], i - 1, b);
      assert blocks[i := b][1..] == blocks[1..][i - 1 := b];
    }
  }

  lemma {:induction false} TotalRemove(blocks: seq<Block>, i: nat)
    requires i < |blocks|
    ensures Total(blocks[..i] + blocks[i + 1..]) == Total(blocks) - (blocks[i].end - blocks[i].mem)
  {
    var rest := blocks[..i] + blocks[i + 1..];
    if i == 0 {
      assert rest == blocks[1..];
    } else {
      TotalRemove(blocks[1..], i - 1);
      assert rest[1..] == blocks[1..][..i - 1] + blocks[1..][i..];
    }
  }
}
