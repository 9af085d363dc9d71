// The intrusive circular list of include/em/list.h and include/em/list_i.h.

module Lists {
  /** em_list */
  class Node {
    var prev: Node
    var next: Node

    /** em_list_init on a new node. */
    constructor ()
      ensures Ring([this])
    {
      prev, next := this, this;
    }
  }

  // ---------- Rings ----------

  function After(n: nat, i: nat): nat {
    if i + 1 == n then 0 else i + 1
  }

  ghost predicate Joined(a: Node, b: Node)
    reads a`next, b`prev
  {
    a.next == b && b.prev == a
  }

  ghost predicate Distinct(s: seq<Node>) {
    forall i, j :: 0 <= i < j < |s| ==> s[i] != s[j]
  }

  /** The nodes of s, in this order, make up a whole circular list. */
  ghost predicate Ring(s: seq<Node>)
    reads s
  {
    && s != [] && Distinct(s)
    && forall i :: 0 <= i < |s| ==> Joined(s[i], s[After(|s|, i)])
  }

  /** In a ring, next leads from each node to the one after it and from the last one to the head, and prev back. */
  lemma RingMeans(s: seq<Node>)
    ensures Ring(s) <==>
      && s != [] && (forall i, j :: 0 <= i < j < |s| ==> s[i] != s[j])
      && (forall i, j :: 0 <= i < |s| && j == i + 1 < |s| ==> s[i].next == s[j] && s[j].prev == s[i])
      && s[|s| - 1].next == s[0] && s[0].prev == s[|s| - 1]
  {
    if Ring(s) {
      assert Joined(s[|s| - 1], s[After(|s|, |s| - 1)]);
      forall i, j | 0 <= i < |s| && j == i + 1 < |s|
        ensures s[i].next == s[j] && s[j].prev == s[i]
      {
        assert Joined(s[i], s[After(|s|, i)]);
      }
    }
  }

  ghost predicate Apart(s: seq<Node>, t: seq<Node>) {
    forall i, j :: 0 <= i < |s| && 0 <= j < |t| ==> s[i] != t[j]
  }

  /** A ring is determined by any of its nodes, so that a list head stands for one sequence. */
  lemma RingIsUnique(s: seq<Node>, t: seq<Node>)
    requires Ring(s) && Ring(t) && s[0] == t[0]
    ensures s == t
  {
    var n := if |s| < |t| then |s| else |t|;
    for i := 1 to n
      invariant forall j :: 0 <= j < i ==> s[j] == t[j]
    {
      assert Joined(s[i - 1], s[After(|s|, i - 1)]) && Joined(t[i - 1], t[After(|t|, i - 1)]);
    }
    assert Joined(s[n - 1], s[After(|s|, n - 1)]) && Joined(t[n - 1], t[After(|t|, n - 1)]);
  }

  /** Which node comes first does not matter for being a ring. */
  lemma RingRotates(s: seq<Node>, k: nat)
    requires Ring(s) && k < |s|
    ensures Ring(s[k..] + s[..k])
  {
    var r, n := s[k..] + s[..k], |s|;
    forall i | 0 <= i < n
      ensures Joined(r[i], r[After(n, i)])
    {
      var j := if i + k < n then i + k else i + k - n;
      assert r[i] == s[j] && r[After(n, i)] == s[After(n, j)];
      assert Joined(s[j], s[After(n, j)]);
    }
  }

  // ---------- Operations ----------

  /** em_link_node */
  method LinkNode(prev: Node, next: Node)
    modifies prev`next, next`prev
    ensures Joined(prev, next)
  {
    prev.next := next;
    next.prev := prev;
  }

  /** em_list_init */
  method Init(node: Node)
    modifies node
    ensures Ring([node])
  {
    node.next := node;
    node.prev := node;
  }

  /** em_list_empty */
  method Empty(list: Node, ghost s: seq<Node>) returns (empty: bool)
    requires Ring(s) && s[0] == list
    ensures empty <==> s == [list]
  {
    assert Joined(s[0], s[After(|s|, 0)]);
    empty := list.next == list;
  }

  /** em_list_insert_after */
  method InsertAfter(pos: Node, node: Node, ghost s: seq<Node>, ghost k: nat)
    requires Ring(s) && k < |s| && s[k] == pos && node !in s
    modifies pos`next, pos.next`prev, node
    ensures Ring(s[..k + 1] + [node] + s[k + 1..])
  {
    assert Joined(s[k], s[After(|s|, k)]);
    node.prev := pos;
    node.next := pos.next;
    pos.next.prev := node;
    pos.next := node;
    ghost var r := s[..k + 1] + [node] + s[k + 1..];
    forall i | 0 <= i < |r|
      ensures Joined(r[i], r[After(|r|, i)])
    {
      if i < k {
        assert old(Joined(s[i], s[After(|s|, i)]));
      } else if i > k + 1 {
        assert old(Joined(s[i - 1], s[After(|s|, i - 1)]));
      }
    }
  }

  /** The position before k, around the ring. */
  function Before(n: nat, k: nat): nat
    requires k < n
  {
    if k == 0 then n - 1 else k - 1
  }

  /** em_list_insert_before.  Before a list head means at the end of the list. */
  method InsertBefore(pos: Node, node: Node, ghost s: seq<Node>, ghost k: nat)
    requires Ring(s) && k < |s| && s[k] == pos && node !in s
    modifies pos`prev, pos.prev`next, node
    ensures Ring(if k == 0 then s + [node] else s[..k] + [node] + s[k..])
  {
    ghost var b := Before(|s|, k);
    assert Joined(s[b], s[After(|s|, b)]);
    InsertAfter(pos.prev, node, s, b);
    assert k == 0 ==> s[..b + 1] + [node] + s[b + 1..] == s + [node];
  }

  /** em_list_insert_nodes_after.  The whole chain t comes in between, lst included. */
  method InsertNodesAfter(pos: Node, lst: Node, ghost s: seq<Node>, ghost k: nat, ghost t: seq<Node>)
    requires Ring(s) && k < |s| && s[k] == pos && Ring(t) && t[0] == lst && Apart(s, t)
    modifies pos`next, pos.next`prev, lst`prev, lst.prev`next
    ensures Ring(s[..k + 1] + t + s[k + 1..])
  {
    assert Joined(s[k], s[After(|s|, k)]);
    assert Joined(t[|t| - 1], t[After(|t|, |t| - 1)]);
    var lstLast := lst.prev;
    var posNext := pos.next;
    LinkNode(pos, lst);
    LinkNode(lstLast, posNext);
    ghost var r := s[..k + 1] + t + s[k + 1..];
    forall i | 0 <= i < |r|
      ensures Joined(r[i], r[After(|r|, i)])
    {
      if i < k {
        assert old(Joined(s[i], s[After(|s|, i)]));
      } else if i > k + |t| {
        assert old(Joined(s[i - |t|], s[After(|s|, i - |t|)]));
      } else if k < i < k + |t| {
        assert old(Joined(t[i - k - 1], t[After(|t|, i - k - 1)]));
      }
    }
  }

  /** em_list_insert_nodes_before */
  method InsertNodesBefore(pos: Node, lst: Node, ghost s: seq<Node>, ghost k: nat, ghost t: seq<Node>)
    requires Ring(s) && k < |s| && s[k] == pos && Ring(t) && t[0] == lst && Apart(s, t)
    modifies pos`prev, pos.prev`next, lst`prev, lst.prev`next
    ensures Ring(if k == 0 then s + t else s[..k] + t + s[k..])
  {
    ghost var b := Before(|s|, k);
    assert Joined(s[b], s[After(|s|, b)]);
    InsertNodesAfter(pos.prev, lst, s, b, t);
    assert k == 0 ==> s[..b + 1] + t + s[b + 1..] == s + t;
  }

  /** em_list_merge_last.  The nodes of the second list follow those of the first, and the second becomes empty. */
  method MergeLast(lst1: Node, lst2: Node, ghost s: seq<Node>, ghost t: seq<Node>)
    requires Ring(s) && s[0] == lst1 && Ring(t) && t[0] == lst2 && Apart(s, t)
    modifies lst1`prev, lst1.prev`next, lst2, lst2.next`prev, lst2.prev`next
    ensures Ring(s + t[1..]) && Ring([lst2])
  {
    var empty := Empty(lst2, t);
    assert Joined(s[|s| - 1], s[After(|s|, |s| - 1)]);
    assert Joined(t[0], t[After(|t|, 0)]) && Joined(t[|t| - 1], t[After(|t|, |t| - 1)]);
    if !empty {
      LinkNode(lst1.prev, lst2.next);
      LinkNode(lst2.prev, lst1);
      Init(lst2);
      ghost var r := s + t[1..];
      forall i | 0 <= i < |r|
        ensures Joined(r[i], r[After(|r|, i)])
      {
        if i < |s| - 1 {
          assert old(Joined(s[i], s[After(|s|, i)]));
        } else if |s| <= i < |r| - 1 {
          assert old(Joined(t[i - |s| + 1], t[After(|t|, i - |s| + 1)]));
        }
      }
    } else {
      assert s + t[1..] == s;
    }
  }

  /** em_list_merge_first.  The nodes of the second list precede those of the first. */
  method MergeFirst(lst1: Node, lst2: Node, ghost s: seq<Node>, ghost t: seq<Node>)
    requires Ring(s) && s[0] == lst1 && Ring(t) && t[0] == lst2 && Apart(s, t)
    modifies lst1`next, lst1.next`prev, lst2, lst2.next`prev, lst2.prev`next
    ensures Ring([lst1] + t[1..] + s[1..]) && Ring([lst2])
  {
    var empty := Empty(lst2, t);
    assert Joined(s[0], s[After(|s|, 0)]);
    assert Joined(t[0], t[After(|t|, 0)]) && Joined(t[|t| - 1], t[After(|t|, |t| - 1)]);
    if !empty {
      LinkNode(lst2.prev, lst1.next);
      LinkNode(lst1, lst2.next);
      Init(lst2);
      ghost var r := [lst1] + t[1..] + s[1..];
      forall i | 0 <= i < |r|
        ensures Joined(r[i], r[After(|r|, i)])
      {
        if 1 <= i < |t| - 1 {
          assert old(Joined(t[i], t[After(|t|, i)]));
        } else if |t| <= i {
          assert old(Joined(s[i - |t| + 1], s[After(|s|, i - |t| + 1)]));
        }
      }
    } else {
      assert [lst1] + t[1..] + s[1..] == s;
    }
  }

  /** em_list_erase.  The node leaves its ring and is a ring of its own, so that to erase it again changes nothing. */
  method Erase(node: Node, ghost s: seq<Node>, ghost k: nat)
    requires Ring(s) && k < |s| && s[k] == node
    modifies node, node.prev`next, node.next`prev
    ensures Ring([node])
    ensures |s| > 1 ==> Ring(s[..k] + s[k + 1..])
    ensures |s| == 1 ==> node.prev == old(node.prev) && node.next == old(node.next)
  {
    ghost var b := Before(|s|, k);
    assert Joined(s[b], s[After(|s|, b)]) && Joined(s[k], s[After(|s|, k)]);
    LinkNode(node.prev, node.next);
    Init(node);
    ghost var r := s[..k] + s[k + 1..];
    forall i | 0 <= i < |r|
      ensures Joined(r[i], r[After(|r|, i)])
    {
      ghost var j := if i < k then i else i + 1;
      assert r[i] == s[j];
      assert old(Joined(s[j], s[After(|s|, j)]));
      if r[i] == s[b] {
        assert i == Before(|s|, k) || (k == 0 && i == |r| - 1);
      }
    }
  }

  /** em_list_find_node.  It finds the list head as well. */
  method FindNode(list: Node, node: Node, ghost s: seq<Node>) returns (r: Node?)
    requires Ring(s) && s[0] == list
    ensures r == if node in s then node else null
  {
    assert Joined(s[0], s[After(|s|, 0)]);
    var p := list.next;
    ghost var i := After(|s|, 0);
    while p != list && p != node
      invariant i < |s| && p == s[i]
      invariant forall j :: 0 < j < (if i == 0 then |s| else i) ==> s[j] != node
      decreases if i == 0 then 0 else |s| - i
    {
      assert Joined(s[i], s[After(|s|, i)]);
      p := p.next;
      i := After(|s|, i);
    }
    r := if p == node then p else null;
  }

  /** em_list_search.  It returns the first match behind the head; the comparison may read the nodes. */
  method Search(list: Node, comp: Node ~> int, ghost s: seq<Node>) returns (r: Node?)
    requires Ring(s) && s[0] == list && forall j :: 0 < j < |s| ==> comp.requires(s[j])
    ensures r == null <==> forall j :: 0 < j < |s| ==> comp(s[j]) != 0
    ensures r != null ==> exists k :: 0 < k < |s| && s[k] == r && comp(r) == 0 && forall j :: 0 < j < k ==>
        comp(s[j]) != 0
  {
    assert Joined(s[0], s[After(|s|, 0)]);
    var p := list.next;
    ghost var i := After(|s|, 0);
    while p != list && comp(p) != 0
      invariant i < |s| && p == s[i]
      invariant forall j :: 0 < j < (if i == 0 then |s| else i) ==> comp(s[j]) != 0
      decreases if i == 0 then 0 else |s| - i
    {
      assert Joined(s[i], s[After(|s|, i)]);
      p := p.next;
      i := After(|s|, i);
    }
    r := if p == list then null else p;
  }

  /** em_list_size */
  method Size(list: Node, ghost s: seq<Node>) returns (count: nat)
    requires Ring(s) && s[0] == list
    ensures count == |s| - 1
  {
    assert Joined(s[0], s[After(|s|, 0)]);
    var node := list.next;
    count := 0;
    ghost var i := After(|s|, 0);
    while node != list
      invariant i < |s| && node == s[i]
      invariant count == (if i == 0 then |s| else i) - 1
      decreases if i == 0 then 0 else |s| - i
    {
      count := count + 1;
      assert Joined(s[i], s[After(|s|, i)]);
      node := node.next;
      i := After(|s|, i);
    }
  }
}
