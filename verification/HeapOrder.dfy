// The heap order on plain sequences of deadlines, and what one sift step does to it.
// While src/timer.c moves an entry through a hole, the sequence here has the moved
// entry's deadline at the hole, so one copy in the code is one exchange here.

module HeapOrder {
  import opened TimeValues

  /** HEAP_PARENT */
  function Parent(x: nat): nat {
    if x == 0 then 0 else (x - 1) / 2
  }

  /** HEAP_LEFT */
  function Left(x: nat): nat {
    x + x + 1
  }

  /** The parent relation is that of a binary tree. */
  lemma ChildrenOfParent(x: nat, j: nat)
    ensures Parent(Left(x)) == x && Parent(Left(x) + 1) == x && Parent(0) == 0
    ensures j > 0 ==> Parent(j) < j && (j == Left(Parent(j)) || j == Left(Parent(j)) + 1)
  {
  }

  /** If i is the parent of j, then i does not expire after j. */
  ghost predicate Edge(v: seq<TimeVal>, i: int, j: int) {
    0 <= i < j < |v| && i == Parent(j) ==> Lte(v[i], v[j])
  }

  ghost predicate HeapSeq(v: seq<TimeVal>) {
    forall i, j :: Edge(v, i, j)
  }

  /** The children of slot are not before the parent of slot. */
  ghost predicate Span(v: seq<TimeVal>, slot: nat, j: int) {
    0 < slot < j < |v| && Parent(j) == slot ==> Lte(v[Parent(slot)], v[j])
  }

  /** In order, except that slot may be before its parent. */
  ghost predicate UpHeap(v: seq<TimeVal>, slot: nat) {
    && slot < |v|
    && (forall i, j :: j != slot ==> Edge(v, i, j))
    && (forall j :: Span(v, slot, j))
  }

  /** In order, except that slot may be after its children. */
  ghost predicate DownHeap(v: seq<TimeVal>, slot: nat) {
    && slot < |v|
    && (forall i, j :: i != slot ==> Edge(v, i, j))
    && (forall j :: Span(v, slot, j))
  }

  /** child is the child of slot that expires first. */
  ghost predicate FirstChild(v: seq<TimeVal>, slot: nat, child: nat) {
    && child < |v| && (child == Left(slot) || child == Left(slot) + 1)
    && Lte(v[child], v[Left(slot)])
    && (Left(slot) + 1 < |v| ==> Lte(v[child], v[Left(slot) + 1]))
  }

  function Swap(v: seq<TimeVal>, i: nat, j: nat): seq<TimeVal>
    requires i < |v| && j < |v|
  {
    v[i := v[j]][j := v[i]]
  }

  lemma SiftUpStep(v: seq<TimeVal>, slot: nat)
    requires UpHeap(v, slot) && slot > 0 && Lt(v[slot], v[Parent(slot)])
    ensures UpHeap(Swap(v, slot, Parent(slot)), Parent(slot))
  {
    var p := Parent(slot);
    var w := Swap(v, slot, p);
    forall i, j | j != p
      ensures Edge(w, i, j)
    {
      assert Edge(v, i, j) || j == slot;
      assert Span(v, slot, j);
    }
    forall j
      ensures Span(w, p, j)
    {
      assert Edge(v, Parent(p), p) && (j == slot || Edge(v, p, j));
    }
  }

  lemma SiftUpDone(v: seq<TimeVal>, slot: nat)
    requires UpHeap(v, slot) && (slot == 0 || !Lt(v[slot], v[Parent(slot)]))
    ensures HeapSeq(v)
  {
  }

  lemma SiftDownStep(v: seq<TimeVal>, slot: nat, child: nat)
    requires DownHeap(v, slot) && FirstChild(v, slot, child) && Lt(v[child], v[slot])
    ensures DownHeap(Swap(v, slot, child), child)
  {
    var w := Swap(v, slot, child);
    forall i, j | i != child
      ensures Edge(w, i, j)
    {
      assert i != slot ==> Edge(v, i, j);
      assert Span(v, slot, child);
      assert j >= 1 && Parent(j) == slot ==> j == Left(slot) || j == Left(slot) + 1;
    }
    forall j
      ensures Span(w, child, j)
    {
      assert Edge(v, child, j);
    }
  }

  lemma SiftDownDone(v: seq<TimeVal>, slot: nat, child: nat)
    requires DownHeap(v, slot)
    requires Left(slot) < |v| ==> FirstChild(v, slot, child) && !Lt(v[child], v[slot])
    ensures HeapSeq(v)
  {
  }

  /** v without its last slot, whose deadline takes the place of the one in `slot`. */
  function Replaced(v: seq<TimeVal>, slot: nat): seq<TimeVal>
    requires slot < |v|
  {
    var n := |v| - 1;
    if slot < n then v[..n][slot := v[n]] else v[..n]
  }

  /** After a removal the heap can be repaired in the direction the code picks. */
  lemma ReplaceInHeap(v: seq<TimeVal>, slot: nat)
    requires HeapSeq(v) && slot + 1 < |v|
    ensures var w := Replaced(v, slot);
            if Gte(w[slot], w[Parent(slot)]) then DownHeap(w, slot) else UpHeap(w, slot)
  {
    var w := Replaced(v, slot);
    forall i, j {:trigger Edge(w, i, j)} | i != slot && j != slot
      ensures Edge(w, i, j)
    {
      assert Edge(v, i, j);
    }
    forall i
      ensures Gte(w[slot], w[Parent(slot)]) ==> Edge(w, i, slot)
    {
    }
    forall j
      ensures !Gte(w[slot], w[Parent(slot)]) ==> Edge(w, slot, j)
    {
      assert Edge(v, Parent(slot), slot) && Edge(v, slot, j);
    }
    forall j
      ensures Span(w, slot, j)
    {
      assert Edge(v, Parent(slot), slot) && Edge(v, slot, j);
    }
  }

  /** Dropping the last slot of a heap leaves a heap. */
  lemma DropLast(v: seq<TimeVal>)
    requires HeapSeq(v) && v != []
    ensures HeapSeq(Replaced(v, |v| - 1))
  {
    var w := Replaced(v, |v| - 1);
    forall i, j
      ensures Edge(w, i, j)
    {
      assert Edge(v, i, j);
    }
  }

  /** A new deadline behind the last leaf leaves the heap repairable upwards. */
  lemma AppendToHeap(v: seq<TimeVal>, t: TimeVal)
    requires HeapSeq(v)
    ensures UpHeap(v + [t], |v|)
  {
    forall i, j | j != |v|
      ensures Edge(v + [t], i, j)
    {
      assert Edge(v, i, j);
    }
    forall j
      ensures Span(v + [t], |v|, j)
    {
    }
  }

  /** The root expires first. */
  lemma {:induction false} RootIsLeast(v: seq<TimeVal>, i: nat)
    requires HeapSeq(v) && i < |v|
    ensures Lte(v[0], v[i])
    decreases i
  {
    if i > 0 {
      RootIsLeast(v, Parent(i));
      assert Edge(v, Parent(i), i);
    }
  }
}
