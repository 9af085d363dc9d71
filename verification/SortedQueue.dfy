// What a poll means when the callbacks leave the heap alone: the scheduled
// entries form a queue sorted by deadline, and a poll takes a prefix of it.

module SortedQueue {
  import opened TimeValues

  ghost function Min(x: nat, y: nat): nat {
    if x <= y then x else y
  }

  ghost predicate Distinct<T>(s: seq<T>) {
    forall i, j :: 0 <= i < j < |s| ==> s[i] != s[j]
  }

  /** Firing `fired` in that order takes the queue `before` to the queue `after`: the earliest first, and only due
      entries. */
  ghost predicate Fired<T>(before: set<T>, fired: seq<T>, after: set<T>, deadline: map<T, TimeVal>, now: TimeVal) {
    && before <= deadline.Keys
    && Distinct(fired) && (forall i :: 0 <= i < |fired| ==> fired[i] in before)
    && after == before - Members(fired)
    && (forall i, j :: 0 <= i < j < |fired| ==> Lte(deadline[fired[i]], deadline[fired[j]]))
    && (forall i, e :: 0 <= i < |fired| && e in after ==> Lte(deadline[fired[i]], deadline[e]))
    && (forall i :: 0 <= i < |fired| ==> Lte(deadline[fired[i]], now))
  }

  /** One poll: it stops at its limit or when nothing due is left. */
  ghost predicate Drains<T>(before: set<T>, fired: seq<T>, after: set<T>, deadline: map<T, TimeVal>, now: TimeVal,
      limit: nat) {
    && Fired(before, fired, after, deadline, now)
    && |fired| <= limit
    && (|fired| == limit || forall e :: e in after ==> !Lte(deadline[e], now))
  }

  lemma FireNext<T>(before: set<T>, fired: seq<T>, after: set<T>, deadline: map<T, TimeVal>, now: TimeVal, x: T)
    requires Fired(before, fired, after, deadline, now)
    requires x in after && Lte(deadline[x], now) && forall e :: e in after ==> Lte(deadline[x], deadline[e])
    ensures Fired(before, fired + [x], after - {x}, deadline, now)
  {
  }

  ghost function Members<T>(s: seq<T>): set<T> {
    set x | x in s
  }

  ghost function Due<T>(queue: set<T>, deadline: map<T, TimeVal>, now: TimeVal): set<T>
    requires queue <= deadline.Keys
  {
    set e | e in queue && Lte(deadline[e], now)
  }

  lemma {:induction false} DistinctSize<T>(s: seq<T>)
    requires Distinct(s)
    ensures |Members(s)| == |s|
  {
    if s != [] {
      var n := |s| - 1;
      DistinctSize(s[..n]);
      assert Members(s) == Members(s[..n]) + {s[n]};
    }
  }

  lemma {:induction false} SubsetSize<T>(a: set<T>, b: set<T>)
    requires a <= b
    ensures |a| <= |b|
  {
    if a != {} {
      var x :| x in a;
      SubsetSize(a - {x}, b - {x});
    }
  }

  /** A poll fires exactly the smaller of its limit and the number of due entries. */
  lemma DrainCount<T>(before: set<T>, fired: seq<T>, after: set<T>, deadline: map<T, TimeVal>, now: TimeVal, limit: nat)
    requires Drains(before, fired, after, deadline, now, limit)
    ensures |fired| == Min(limit, |Due(before, deadline, now)|)
  {
    var due := Due(before, deadline, now);
    DistinctSize(fired);
    SubsetSize(Members(fired), due);
    if |fired| < limit {
      assert Members(fired) == due;
    }
  }

  /** Two polls of the same queue fire the same deadlines in the same order: only ties are left open. */
  lemma DrainUnique<T>(before: set<T>, f1: seq<T>, a1: set<T>, f2: seq<T>, a2: set<T>,
                       deadline: map<T, TimeVal>, now: TimeVal, limit: nat)
    requires Drains(before, f1, a1, deadline, now, limit)
    requires Drains(before, f2, a2, deadline, now, limit)
    ensures |f1| == |f2|
    ensures forall i :: 0 <= i < |f1| ==> deadline[f1[i]] == deadline[f2[i]]
  {
    DrainCount(before, f1, a1, deadline, now, limit);
    DrainCount(before, f2, a2, deadline, now, limit);
    forall i | 0 <= i < |f1|
      ensures deadline[f1[i]] == deadline[f2[i]]
    {
      NotBefore(before, f1, a1, f2, a2, deadline, now, limit, i);
      NotBefore(before, f2, a2, f1, a1, deadline, now, limit, i);
    }
  }

  /** By counting: i + 1 entries before f2[i] would all have to be among the first i of f2. */
  lemma NotBefore<T>(before: set<T>, f1: seq<T>, a1: set<T>, f2: seq<T>, a2: set<T>,
                     deadline: map<T, TimeVal>, now: TimeVal, limit: nat, i: nat)
    requires Drains(before, f1, a1, deadline, now, limit)
    requires Drains(before, f2, a2, deadline, now, limit)
    requires i < |f1| && i < |f2|
    ensures Lte(deadline[f2[i]], deadline[f1[i]])
  {
    if !Lte(deadline[f2[i]], deadline[f1[i]]) {
      var p, q := f1[..i + 1], f2[..i];
      forall x | x in Members(p)
        ensures x in Members(q)
      {
        var k :| 0 <= k <= i && f1[k] == x;
        assert Lte(deadline[x], deadline[f1[i]]);
        assert x !in a2;
        var m :| 0 <= m < |f2| && f2[m] == x;
        assert m < i;
        assert q[m] == x;
      }
      DistinctSize(p);
      DistinctSize(q);
      SubsetSize(Members(p), Members(q));
      assert false;
    }
  }
}
