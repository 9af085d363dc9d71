// The timer heap of src/timer.c: a binary min-heap of entries beside the
// timer_ids array, which is the inverse index of the heap for ids in use and a
// linked freelist (through negated values) for the ids that are not.

module TimerHeaps {
  import opened Options
  import opened TimeValues
  import opened HeapOrder
  import opened Freelist
  import SortedQueue

  const EM_MAXINT32 := 0x7fff_ffff
  const DEFAULT_MAX_TIMED_OUT_PER_POLL := 64

  datatype Status = Succ | Einval | EinvalidOp

  /** A group lock, seen as its reference counter only. */
  class GroupLock {
    var refCnt: int
    ghost var others: int  // references held by anyone but the timer heap

    constructor (count: int)
      ensures refCnt == others == count
    {
      refCnt, others := count, count;
    }

    /** em_grp_lock_add_ref */
    method AddRef()
      modifies `refCnt
      ensures refCnt == old(refCnt) + 1
    {
      refCnt := refCnt + 1;
    }

    /** em_grp_lock_dec_ref; what happens when the count reaches 0 is outside the model. */
    method DecRef()
      modifies `refCnt
      ensures refCnt == old(refCnt) - 1
    {
      refCnt := refCnt - 1;
    }
  }

  class Entry {
    var timerId: int
    var value: TimeVal
    var id: int
    var grpLock: GroupLock?
    const hasCb: bool

    /** em_timer_entry_init */
    constructor (id: int, hasCb: bool)
      ensures Idle() && this.id == id && this.hasCb == hasCb
    {
      this.timerId := -1;
      this.value := TimeVal(0, 0);
      this.id := id;
      this.grpLock := null;
      this.hasCb := hasCb;
    }

    /** em_timer_entry_running */
    predicate Running()
      reads this
    {
      timerId >= 1
    }

    /** Initialised and in no heap. */
    ghost predicate Idle()
      reads `timerId, `grpLock
    {
      timerId < 1 && grpLock == null
    }
  }

  /** What the callback of an entry may do to the heap: the public operations, each with the tick count it reads. */
  datatype Action =
    | Schedule(entry: Entry, delay: TimeVal, setId: bool, idVal: int, lock: GroupLock?, now: TimeVal)
    | Cancel(entry: Entry, setId: bool, idVal: int)

  /** One call of the public interface while no callback is running. */
  datatype Call =
    | Do(action: Action)
    | DoPoll(now: TimeVal, script: seq<seq<Action>>, wantDelay: bool)

  /** What is scheduled for an entry. */
  datatype Item = Item(at: TimeVal, lock: GroupLock?)

  /** The meaning of an operation for the entries that are scheduled. */
  ghost function Effect(a: Action, q: map<Entry, Item>): map<Entry, Item> {
    match a
    case Schedule(e, delay, _, _, lock, now) =>
      if e.hasCb && e !in q then q[e := Item(OfMsec(Msec(now) + Msec(delay)), lock)] else q
    case Cancel(e, _, _) => q - {e}
  }

  ghost function Effects(actions: seq<Action>, q: map<Entry, Item>): map<Entry, Item> {
    if actions == [] then q else Effect(actions[|actions| - 1], Effects(actions[..|actions| - 1], q))
  }

  /** The k-th of the callbacks of a poll. */
  function ScriptAt(script: seq<seq<Action>>, k: nat): seq<Action> {
    if k < |script| then script[k] else []
  }

  /** What is scheduled after a poll fired these entries, with their callbacks. */
  ghost function AgendaAfter(q: map<Entry, Item>, script: seq<seq<Action>>, fired: seq<Entry>): map<Entry, Item> {
    if fired == [] then q
    else
      var n := |fired| - 1;
      Effects(ScriptAt(script, n), AgendaAfter(q, script, fired[..n]) - {fired[n]})
  }

  ghost predicate IsFirstDue(q: map<Entry, Item>, e: Entry, now: TimeVal) {
    e in q && Lte(q[e].at, now) && forall f :: f in q ==> Lte(q[e].at, q[f].at)
  }

  /** Each entry is due, and the earliest one scheduled, at the time that it fires. */
  ghost predicate FiresInOrder(q: map<Entry, Item>, script: seq<seq<Action>>, fired: seq<Entry>, now: TimeVal) {
    fired == [] ||
    var n := |fired| - 1;
    FiresInOrder(q, script, fired[..n], now) && IsFirstDue(AgendaAfter(q, script, fired[..n]), fired[n], now)
  }

  ghost predicate NoneDue(q: map<Entry, Item>, now: TimeVal) {
    forall e :: e in q ==> !Lte(q[e].at, now)
  }

  /** What a poll does to the agenda: it fires due entries in order, up to its limit, and stops short only when none
      is due. */
  ghost predicate Polled(q: map<Entry, Item>, script: seq<seq<Action>>, now: TimeVal, limit: nat, fired: seq<Entry>,
      q': map<Entry, Item>) {
    && FiresInOrder(q, script, fired, now) && q' == AgendaAfter(q, script, fired)
    && |fired| <= limit && (|fired| == limit || NoneDue(q', now))
  }

  lemma NothingPolled(q: map<Entry, Item>, script: seq<seq<Action>>, now: TimeVal, limit: nat)
    requires q.Keys == {}
    ensures Polled(q, script, now, limit, [], q)
  {
  }

  ghost function DeadlinesOf(q: map<Entry, Item>): map<Entry, TimeVal> {
    map e | e in q :: q[e].at
  }

  predicate Idle(script: seq<seq<Action>>) {
    forall k :: 0 <= k < |script| ==> script[k] == []
  }

  /** These entries are a prefix of the queue sorted by deadline, and due. */
  ghost predicate SortedPrefix(q: map<Entry, Item>, fired: seq<Entry>, now: TimeVal) {
    SortedQueue.Fired(q.Keys, fired, q.Keys - SortedQueue.Members(fired), DeadlinesOf(q), now)
  }

  ghost function Remaining(q: map<Entry, Item>, fired: seq<Entry>): map<Entry, Item> {
    q - SortedQueue.Members(fired)
  }

  lemma PrefixGrows(q: map<Entry, Item>, fired: seq<Entry>, now: TimeVal, e: Entry)
    requires SortedPrefix(q, fired, now) && IsFirstDue(Remaining(q, fired), e, now)
    ensures SortedPrefix(q, fired + [e], now) && Remaining(q, fired) - {e} == Remaining(q, fired + [e])
  {
    SortedQueue.FireNext(q.Keys, fired, q.Keys - SortedQueue.Members(fired), DeadlinesOf(q), now, e);
    assert SortedQueue.Members(fired + [e]) == SortedQueue.Members(fired) + {e};
    assert q.Keys - SortedQueue.Members(fired) - {e} == q.Keys - SortedQueue.Members(fired + [e]);
  }

  lemma {:induction false} IdleFires(q: map<Entry, Item>, script: seq<seq<Action>>, now: TimeVal, fired: seq<Entry>)
    requires Idle(script) && FiresInOrder(q, script, fired, now)
    ensures SortedPrefix(q, fired, now) && AgendaAfter(q, script, fired) == Remaining(q, fired)
    decreases |fired|
  {
    hide SortedPrefix, IsFirstDue, Remaining;
    if fired == [] {
      NoneFired(q, now);
    } else {
      var n := |fired| - 1;
      IdleFires(q, script, now, fired[..n]);
      PrefixGrows(q, fired[..n], now, fired[n]);
      assert fired == fired[..n] + [fired[n]];
    }
  }

  lemma NoneFired(q: map<Entry, Item>, now: TimeVal)
    ensures SortedPrefix(q, [], now) && Remaining(q, []) == q
  {
    assert SortedQueue.Members<Entry>([]) == {};
  }

  /** When the callbacks do nothing, a poll takes a prefix of the queue sorted by deadline. */
  lemma IdlePollDrains(q: map<Entry, Item>, script: seq<seq<Action>>, now: TimeVal, limit: nat, fired: seq<Entry>,
      q': map<Entry, Item>)
    requires Idle(script) && Polled(q, script, now, limit, fired, q')
    ensures SortedQueue.Drains(q.Keys, fired, q'.Keys, DeadlinesOf(q), now, limit)
  {
    IdleFires(q, script, now, fired);
    assert q'.Keys == q.Keys - SortedQueue.Members(fired);
  }

  // ---------- What a poll does, step by step ----------

  /** What one operation does to the agenda, entry by entry. */
  ghost predicate Does(a: Action, p: map<Entry, Item>, p': map<Entry, Item>) {
    match a
    case Schedule(e, delay, _, _, lock, now) =>
      if e.hasCb && e !in p then
        && p'.Keys == p.Keys + {e}
        && (forall f :: f in p ==> p'[f] == p[f])
        && Normal(p'[e].at) && Msec(p'[e].at) == Msec(now) + Msec(delay) && p'[e].lock == lock
      else p' == p
    case Cancel(e, _, _) =>
      && p'.Keys == p.Keys - {e}
      && (forall f :: f in p' ==> p'[f] == p[f])
  }

  lemma EffectDoes(a: Action, q: map<Entry, Item>, q': map<Entry, Item>)
    ensures Does(a, q, q') <==> q' == Effect(a, q)
  {
    hide OfMsec, Normal, Msec;
    if a.Cancel? || !a.entry.hasCb || a.entry in q {
      assert Does(a, q, q') ==> q' == Effect(a, q);
    } else {
      DeadlineDoes(Msec(a.now) + Msec(a.delay), a.lock, a.entry, q, q');
    }
  }

  lemma DeadlineDoes(total: int, lock: GroupLock?, e: Entry, q: map<Entry, Item>, q': map<Entry, Item>)
    requires e !in q
    ensures q' == q[e := Item(OfMsec(total), lock)] <==>
      && q'.Keys == q.Keys + {e} && (forall f :: f in q ==> q'[f] == q[f])
      && Normal(q'[e].at) && Msec(q'[e].at) == total && q'[e].lock == lock
  {
    hide OfMsec, Normal, Msec;
    NormalFormExistsAndIsUnique(total, OfMsec(total));
    if e in q' {
      NormalFormExistsAndIsUnique(total, q'[e].at);
    }
  }

  /** The agendas between the operations of a callback. */
  lemma {:induction false} CallbackTrace(actions: seq<Action>, q: map<Entry, Item>)
    returns (steps: seq<map<Entry, Item>>)
    ensures |steps| == |actions| + 1 && steps[0] == q && steps[|actions|] == Effects(actions, q)
    ensures forall j :: 0 <= j < |actions| ==> Does(actions[j], steps[j], steps[j + 1])
    decreases |actions|
  {
    hide Does, Effect;
    if actions == [] {
      steps := [q];
    } else {
      var n := |actions| - 1;
      var first := CallbackTrace(actions[..n], q);
      steps := first + [Effects(actions, q)];
      EffectDoes(actions[n], Effects(actions[..n], q), Effects(actions, q));
      assert forall j :: 0 <= j < n ==> actions[..n][j] == actions[j];
    }
  }

  /** One iteration of the poll loop, from agenda p to p': e is due and no later than any other entry, it leaves the
      agenda, and the operations of its callback follow one after the other. */
  ghost predicate Fires(p: map<Entry, Item>, e: Entry, callback: seq<Action>, steps: seq<map<Entry, Item>>,
                        p': map<Entry, Item>, now: TimeVal) {
    && e in p && Lte(p[e].at, now) && (forall f :: f in p ==> Lte(p[e].at, p[f].at))
    && |steps| == |callback| + 1 && steps[0] == p - {e} && steps[|callback|] == p'
    && (forall j :: 0 <= j < |callback| ==> Does(callback[j], steps[j], steps[j + 1]))
  }

  /** A poll in terms of the agendas that it goes through: the i-th callback is script[i], or does nothing. */
  lemma PollTrace(q: map<Entry, Item>, script: seq<seq<Action>>, now: TimeVal, limit: nat, fired: seq<Entry>,
                  q': map<Entry, Item>)
    returns (agendas: seq<map<Entry, Item>>, steps: seq<seq<map<Entry, Item>>>)
    requires Polled(q, script, now, limit, fired, q')
    ensures |agendas| == |fired| + 1 && |steps| == |fired| && agendas[0] == q && agendas[|fired|] == q'
    ensures forall i :: 0 <= i < |fired| ==>
              Fires(agendas[i], fired[i], if i < |script| then script[i] else [], steps[i], agendas[i + 1], now)
    ensures |fired| <= limit && (|fired| == limit || forall e :: e in q' ==> !Lte(q'[e].at, now))
  {
    hide Fires, Effects, Lte;
    agendas, steps := [q], [];
    for n := 0 to |fired|
      invariant |agendas| == n + 1 && |steps| == n && agendas[0] == q
      invariant agendas[n] == AgendaAfter(q, script, fired[..n])
      invariant forall i :: 0 <= i < n ==>
                  Fires(agendas[i], fired[i], if i < |script| then script[i] else [], steps[i], agendas[i + 1], now)
    {
      assert fired[..n + 1][..n] == fired[..n];
      FiresAt(q, script, fired, now, n);
      var next := AgendaAfter(q, script, fired[..n + 1]);
      var callback := FireTrace(agendas[n], fired[n], if n < |script| then script[n] else [], next, now);
      agendas := agendas + [next];
      steps := steps + [callback];
    }
    assert fired[..|fired|] == fired;
  }

  lemma FireTrace(p: map<Entry, Item>, e: Entry, callback: seq<Action>, p': map<Entry, Item>, now: TimeVal)
    returns (steps: seq<map<Entry, Item>>)
    requires IsFirstDue(p, e, now) && p' == Effects(callback, p - {e})
    ensures Fires(p, e, callback, steps, p', now)
  {
    steps := CallbackTrace(callback, p - {e});
  }

  lemma {:induction false} FiresAt(q: map<Entry, Item>, script: seq<seq<Action>>, fired: seq<Entry>, now: TimeVal,
                                   n: nat)
    requires FiresInOrder(q, script, fired, now) && n < |fired|
    ensures IsFirstDue(AgendaAfter(q, script, fired[..n]), fired[n], now)
    decreases |fired|
  {
    hide IsFirstDue, AgendaAfter;
    if n < |fired| - 1 {
      FiresAt(q, script, fired[..|fired| - 1], now, n);
      assert fired[..|fired| - 1][..n] == fired[..n];
    }
  }

  /** Only e is due, and nothing has happened to the other entries of q. */
  ghost predicate OnlyDue(p: map<Entry, Item>, q: map<Entry, Item>, e: Entry, now: TimeVal) {
    && e in p && Lte(p[e].at, now)
    && p.Keys - {e} == q.Keys - {e}
    && (forall f :: f in p && f != e ==> f in q && p[f] == q[f] && !Lte(p[f].at, now))
  }

  /** When the callback of an entry that alone is due arms it again for the same time, the poll fires it as often as its
      limit allows, and it is on the agenda afterwards. */
  lemma RearmedFiresToTheLimit(q: map<Entry, Item>, script: seq<seq<Action>>, now: TimeVal, limit: nat,
                               fired: seq<Entry>, q': map<Entry, Item>, e: Entry)
    requires Normal(now) && e.hasCb && e in q && Lte(q[e].at, now)
    requires forall f :: f in q && f != e ==> !Lte(q[f].at, now)
    requires |script| >= limit
    requires forall k :: 0 <= k < limit ==> |script[k]| == 1 && Rearms(script[k][0], e, now)
    requires Polled(q, script, now, limit, fired, q')
    ensures |fired| == limit && (forall i :: 0 <= i < limit ==> fired[i] == e) && e in q'
    ensures q'.Keys == q.Keys && forall f :: f in q && f != e ==> q'[f] == q[f]
  {
    var agendas, steps := PollTrace(q, script, now, limit, fired, q');
    for i := 0 to |fired|
      invariant OnlyDue(agendas[i], q, e, now)
      invariant forall j :: 0 <= j < i ==> fired[j] == e
    {
      hide OnlyDue, Fires, Rearms;
      assert Fires(agendas[i], fired[i], script[i], steps[i], agendas[i + 1], now);
      FiresAndRearms(agendas[i], fired[i], script[i], steps[i], agendas[i + 1], q, e, now);
    }
  }

  lemma FiresAndRearms(p: map<Entry, Item>, x: Entry, callback: seq<Action>, steps: seq<map<Entry, Item>>,
                       p': map<Entry, Item>, q: map<Entry, Item>, e: Entry, now: TimeVal)
    requires Normal(now) && e.hasCb && OnlyDue(p, q, e, now) && Fires(p, x, callback, steps, p', now)
    requires |callback| == 1 && Rearms(callback[0], e, now)
    ensures x == e && OnlyDue(p', q, e, now)
  {
    assert Does(callback[0], steps[0], steps[0 + 1]);
    RearmKeeps(callback[0], p, p', q, e, now);
  }

  /** The operation schedules e with zero delay at this time. */
  predicate Rearms(a: Action, e: Entry, now: TimeVal) {
    a.Schedule? && a.entry == e && Msec(a.delay) == 0 && a.now == now
  }

  lemma RearmKeeps(a: Action, p: map<Entry, Item>, p': map<Entry, Item>, q: map<Entry, Item>, e: Entry, now: TimeVal)
    requires Normal(now) && e.hasCb && Rearms(a, e, now) && OnlyDue(p, q, e, now) && Does(a, p - {e}, p')
    ensures OnlyDue(p', q, e, now)
  {
    NormalFormExistsAndIsUnique(Msec(now), p'[e].at);
    NormalFormExistsAndIsUnique(Msec(now), now);
  }

  // ---------- Room for the ids of a run ----------

  /** The capacity after one insertion. */
  function GrownSize(curSize: nat, maxSize: nat): nat {
    if curSize + 2 >= maxSize then 2 * maxSize else maxSize
  }

  /** By how much an operation changes the number of entries. */
  ghost function Grows(a: Action, es: set<Entry>): int {
    if a.Schedule? && a.entry.hasCb && a.entry !in es then 1 else if a.Cancel? && a.entry in es then -1 else 0
  }

  /** The capacity after an operation. */
  ghost function Capacity(a: Action, q: map<Entry, Item>, maxSize: nat): nat {
    if Grows(a, q.Keys) == 1 then GrownSize(|q.Keys|, maxSize) else maxSize
  }

  lemma EffectSize(a: Action, q: map<Entry, Item>)
    ensures |Effect(a, q).Keys| == |q.Keys| + Grows(a, q.Keys)
  {
    match a
    case Schedule(e, _, _, _, _, _) => assert Grows(a, q.Keys) == 1 ==> Effect(a, q).Keys == q.Keys + {e};
    case Cancel(e, _, _) =>
      assert Effect(a, q).Keys == q.Keys - {e};
  }

  /** While a callback runs, and keeps an id back, there is a free id for the operation if it needs one. */
  ghost predicate RoomAt(a: Action, q: map<Entry, Item>, maxSize: nat) {
    Grows(a, q.Keys) == 1 ==> |q.Keys| + 3 <= maxSize
  }

  /** There is one for each operation of the callback. */
  ghost predicate RoomFor(actions: seq<Action>, q: map<Entry, Item>, maxSize: nat) {
    forall i :: 0 <= i < |actions| ==> RoomAt(actions[i], Effects(actions[..i], q), maxSize)
  }

  lemma RoomStep(actions: seq<Action>, i: nat, p: map<Entry, Item>, q: map<Entry, Item>, maxSize: nat)
    requires i < |actions| && RoomFor(actions, p, maxSize) && q == Effects(actions[..i], p)
    ensures RoomAt(actions[i], q, maxSize) && Capacity(actions[i], q, maxSize) == maxSize
    ensures Effects(actions[..i + 1], p) == Effect(actions[i], q)
  {
    hide Effect;
    assert actions[..i + 1][..i] == actions[..i];
  }

  /** The operation at i is the first one without. */
  ghost predicate LacksRoomAt(actions: seq<Action>, i: nat, q: map<Entry, Item>, maxSize: nat) {
    i < |actions| && RoomFor(actions[..i], q, maxSize) && !RoomAt(actions[i], Effects(actions[..i], q), maxSize)
  }

  /** A callback that does not find room has a first operation without. */
  lemma {:induction false} SomeLacksRoom(actions: seq<Action>, n: nat, q: map<Entry, Item>, maxSize: nat)
    returns (i: nat)
    requires n <= |actions| && !RoomFor(actions[..n], q, maxSize)
    ensures LacksRoomAt(actions, i, q, maxSize)
    decreases n
  {
    hide Effects, RoomAt;
    i := n - 1;
    if !RoomFor(actions[..n - 1], q, maxSize) {
      i := SomeLacksRoom(actions, n - 1, q, maxSize);
    } else if RoomAt(actions[n - 1], Effects(actions[..n - 1], q), maxSize) {
      RoomForMore(actions, n - 1, q, maxSize);
    }
  }

  lemma RoomForMore(actions: seq<Action>, n: nat, q: map<Entry, Item>, maxSize: nat)
    requires n < |actions| && RoomFor(actions[..n], q, maxSize)
    requires RoomAt(actions[n], Effects(actions[..n], q), maxSize)
    ensures RoomFor(actions[..n + 1], q, maxSize)
  {
    hide Effects, RoomAt;
    var after := actions[..n + 1];
    forall j | 0 <= j < n + 1
      ensures RoomAt(after[j], Effects(after[..j], q), maxSize)
    {
      assert after[..j] == actions[..j];
      if j < n {
        assert actions[..n][..j] == actions[..j] && actions[..n][j] == actions[j];
      }
    }
  }

  /** There is one for each operation of the callbacks of a poll from its k-th callback on, and then of the calls that
      follow, whichever of the entries with equal deadlines fires first. */
  ghost predicate PollRoom(q: map<Entry, Item>, script: seq<seq<Action>>, k: nat, now: TimeVal, limit: nat,
                           maxSize: nat, rest: seq<Call>)
    decreases |rest|, limit + 1
  {
    if limit == 0 || NoneDue(q, now) then RunRoom(rest, q, maxSize)
    else forall e :: e in q && IsFirstDue(q, e, now) ==>
           && RoomFor(ScriptAt(script, k), q - {e}, maxSize)
           && PollRoom(Effects(ScriptAt(script, k), q - {e}), script, k + 1, now, limit - 1, maxSize, rest)
  }

  ghost predicate RunRoom(calls: seq<Call>, q: map<Entry, Item>, maxSize: nat)
    decreases |calls|, 0
  {
    calls == [] ||
    match calls[0]
    case Do(a) => RunRoom(calls[1..], Effect(a, q), Capacity(a, q, maxSize))
    case DoPoll(now, script, _) =>
      PollRoom(q, script, 0, now, DEFAULT_MAX_TIMED_OUT_PER_POLL, maxSize, calls[1..])
  }

  lemma FirstDueIsDue(q: map<Entry, Item>, e: Entry, now: TimeVal)
    requires IsFirstDue(q, e, now)
    ensures e in q && !NoneDue(q, now)
  {
  }

  /** The room is there at every point of the poll. */
  lemma {:induction false} RoomAlong(q: map<Entry, Item>, script: seq<seq<Action>>, fired: seq<Entry>, now: TimeVal,
                                     limit: nat, maxSize: nat, rest: seq<Call>)
    requires PollRoom(q, script, 0, now, limit, maxSize, rest)
    requires FiresInOrder(q, script, fired, now) && |fired| <= limit
    ensures PollRoom(AgendaAfter(q, script, fired), script, |fired|, now, limit - |fired|, maxSize, rest)
    decreases |fired|
  {
    hide IsFirstDue, Effects, RoomFor, RunRoom;
    if fired != [] {
      var n := |fired| - 1;
      RoomAlong(q, script, fired[..n], now, limit, maxSize, rest);
      FirstDueIsDue(AgendaAfter(q, script, fired[..n]), fired[n], now);
    }
  }

  lemma RoomNow(q: map<Entry, Item>, script: seq<seq<Action>>, k: nat, now: TimeVal, limit: nat, maxSize: nat)
    requires PollRoom(q, script, k, now, limit, maxSize, []) && limit > 0
    ensures forall e :: e in q && IsFirstDue(q, e, now) ==> RoomFor(ScriptAt(script, k), q - {e}, maxSize)
  {
    hide Effects, RoomFor, RunRoom;
  }

  lemma RoomAfterPoll(q: map<Entry, Item>, script: seq<seq<Action>>, fired: seq<Entry>, now: TimeVal, limit: nat,
                      maxSize: nat, rest: seq<Call>, q': map<Entry, Item>)
    requires PollRoom(q, script, 0, now, limit, maxSize, rest) && Polled(q, script, now, limit, fired, q')
    ensures RunRoom(rest, q', maxSize)
  {
    RoomAlong(q, script, fired, now, limit, maxSize, rest);
  }

  lemma {:induction false} RoomWithoutRest(q: map<Entry, Item>, script: seq<seq<Action>>, k: nat, now: TimeVal,
                                           limit: nat, maxSize: nat, rest: seq<Call>)
    requires PollRoom(q, script, k, now, limit, maxSize, rest)
    ensures PollRoom(q, script, k, now, limit, maxSize, [])
    decreases limit
  {
    hide IsFirstDue, Effects, RoomFor, NoneDue;
    if limit > 0 && !NoneDue(q, now) {
      forall e | e in q && IsFirstDue(q, e, now)
        ensures PollRoom(Effects(ScriptAt(script, k), q - {e}), script, k + 1, now, limit - 1, maxSize, [])
      {
        RoomWithoutRest(Effects(ScriptAt(script, k), q - {e}), script, k + 1, now, limit - 1, maxSize, rest);
      }
    }
  }

  /** At any moment the actions have scheduled at most one entry that they have not cancelled again. */
  ghost predicate OneNetSchedule(actions: seq<Action>, pending: set<Entry>) {
    actions == [] ||
    match actions[0]
    case Schedule(e, _, _, _, _, _) => pending <= {e} && OneNetSchedule(actions[1..], {e})
    case Cancel(e, _, _) => OneNetSchedule(actions[1..], pending - {e})
  }

  ghost predicate OneNetScript(script: seq<seq<Action>>) {
    forall k :: 0 <= k < |script| ==> OneNetSchedule(script[k], {})
  }

  /** A callback with one net schedule finds room in any heap. */
  lemma OneNetHasRoom(actions: seq<Action>, q: map<Entry, Item>, maxSize: nat)
    requires OneNetSchedule(actions, {}) && |q.Keys| + 3 <= maxSize
    ensures RoomFor(actions, q, maxSize) && |Effects(actions, q).Keys| <= |q.Keys| + 1
  {
    var pending: set<Entry> := {};
    for i := 0 to |actions|
      invariant OneNetSchedule(actions[i..], pending) && (pending == {} || exists e :: pending == {e})
      invariant var es := Effects(actions[..i], q).Keys;
                |es| <= |q.Keys| || (pending != {} && pending <= es && |es| == |q.Keys| + 1)
      invariant forall j :: 0 <= j < i ==> RoomAt(actions[j], Effects(actions[..j], q), maxSize)
    {
      var a := actions[i];
      assert actions[i..][1..] == actions[i + 1..] && actions[..i + 1][..i] == actions[..i];
      EffectSize(a, Effects(actions[..i], q));
      pending := if a.Schedule? then {a.entry} else pending - {a.entry};
    }
    assert actions[..|actions|] == actions;
  }

  lemma {:induction false} OneNetPollHasRoom(q: map<Entry, Item>, script: seq<seq<Action>>, k: nat, now: TimeVal,
                                             limit: nat, maxSize: nat, rest: seq<Call>)
    requires OneNetScript(script) && |q.Keys| + 2 <= maxSize && forall c :: c in rest ==> OneNet(c)
    ensures PollRoom(q, script, k, now, limit, maxSize, rest)
    decreases |rest|, limit + 1
  {
    hide IsFirstDue, Effects, RoomFor, NoneDue, OneNetSchedule, RunRoom;
    if limit == 0 || NoneDue(q, now) {
      OneNetRunHasRoom(rest, q, maxSize);
    } else {
      forall e | e in q && IsFirstDue(q, e, now)
        ensures RoomFor(ScriptAt(script, k), q - {e}, maxSize)
        ensures PollRoom(Effects(ScriptAt(script, k), q - {e}), script, k + 1, now, limit - 1, maxSize, rest)
      {
        assert (q - {e}).Keys == q.Keys - {e};
        OneNetHasRoom(ScriptAt(script, k), q - {e}, maxSize);
        OneNetPollHasRoom(Effects(ScriptAt(script, k), q - {e}), script, k + 1, now, limit - 1, maxSize, rest);
      }
    }
  }

  ghost predicate OneNet(call: Call) {
    call.DoPoll? ==> OneNetScript(call.script)
  }

  /** So does every run whose callbacks are like that. */
  lemma {:induction false} OneNetRunHasRoom(calls: seq<Call>, q: map<Entry, Item>, maxSize: nat)
    requires |q.Keys| + 2 <= maxSize && forall c :: c in calls ==> OneNet(c)
    ensures RunRoom(calls, q, maxSize)
    decreases |calls|, 0
  {
    if calls != [] {
      assert OneNet(calls[0]);
      match calls[0]
      case Do(a) =>
        EffectSize(a, q);
        OneNetRunHasRoom(calls[1..], Effect(a, q), Capacity(a, q, maxSize));
      case DoPoll(now, script, _) =>
        OneNetPollHasRoom(q, script, 0, now, DEFAULT_MAX_TIMED_OUT_PER_POLL, maxSize, calls[1..]);
    }
  }

  function IntMax(x: int, y: int): (m: int)
    ensures m >= x && m >= y && (m == x || m == y)
  {
    if x >= y then x else y
  }

  class TimerHeap {
    var heap: array<Entry?>
    var ids: array<int>
    var maxSize: nat
    var curSize: nat
    var maxPerPoll: nat
    var freeHead: int

    ghost var entries: set<Entry>     // the scheduled entries: the abstract value of the heap
    ghost var live: map<int, Entry>   // the same entries by id
    ghost var free: seq<int>          // the freelist, next id to be handed out first
    ghost var held: set<int>          // ids kept back while a callback runs
    ghost var vals: seq<TimeVal>      // the deadlines of heap[..curSize]
    ghost var known: set<Entry>       // the entries initialised for use with this heap
    ghost var locks: set<GroupLock>   // the group locks they may be scheduled with
    ghost var inFlight: multiset<GroupLock>  // references kept for running callbacks

    // ---------- The invariant of the arrays, part by part ----------

    ghost predicate Arrays()
      reads `heap, `ids, `maxSize
    {
      heap.Length == maxSize && ids.Length == maxSize
    }

    /** live lists exactly the entries, under their own ids. */
    ghost predicate Named()
      reads `maxSize, `entries, `live, entries`timerId
    {
      && (forall e :: e in entries ==> e.timerId in live && live[e.timerId] == e)
      && (forall id :: id in live ==> 1 <= id < maxSize && live[id] in entries && live[id].timerId == id)
    }

    /** heap[..|vals|] holds exactly the entries, ids maps each live id back to its slot, and vals lists the deadlines.
        Slot `hole` is skipped, and so is the entry `moved` that is to fill it. */
    ghost predicate Placed(hole: int, moved: Entry?)
      requires Arrays() && Named()
      reads `heap, `ids, `maxSize, `entries, `live, `vals, heap, ids, entries`timerId, entries`value
    {
      && |vals| <= maxSize
      && (forall i :: 0 <= i < |vals| && i != hole ==>
            && heap[i] != null && heap[i] in entries && heap[i] != moved && heap[i].value == vals[i]
            && ids[heap[i].timerId] == i)
      && (forall id :: id in live && live[id] != moved ==>
            0 <= ids[id] < |vals| && ids[id] != hole && heap[ids[id]] == live[id])
    }

    ghost predicate IndexedBut(hole: int, moved: Entry?)
      reads `heap, `ids, `maxSize, `entries, `live, `vals, heap, ids, entries`timerId, entries`value
    {
      Arrays() && Named() && Placed(hole, moved)
    }

    /** The index with a hole for `moved`, whose deadline already stands in vals. */
    ghost predicate Hole(hole: nat, moved: Entry)
      reads `heap, `ids, `maxSize, `entries, `live, `vals, heap, ids, entries`timerId, entries`value,
          moved`value
    {
      IndexedBut(hole, moved) && moved in entries && hole < |vals| && vals[hole] == moved.value
    }

    ghost predicate Indexed()
      reads `heap, `ids, `maxSize, `entries, `live, `vals, heap, ids, entries`timerId, entries`value
    {
      IndexedBut(-1, null)
    }

    /** The unused ids are on the freelist, which ends at the sentinel maxSize, or held. */
    ghost predicate IdsSplit()
      reads `heap, `ids, `maxSize, `freeHead, `live, `free, `held, ids
    {
      && Arrays() && maxSize >= 2
      && Chain(ids[..], freeHead, free, maxSize)
      && Split(live.Keys, free, held, maxSize)
      && ids[0] == -1
    }

    ghost predicate Core()
      reads `heap, `ids, `maxSize, `curSize, `freeHead, `entries, `live, `free, `held, `vals
      reads heap, ids, entries`timerId, entries`value
    {
      Indexed() && |vals| == curSize && HeapSeq(vals) && IdsSplit()
    }

    // ---------- Internal operations ----------

    method CopyNode(slot: nat, node: Entry)
      requires Arrays() && slot < maxSize && 0 <= node.timerId < maxSize
      modifies heap, ids
      ensures heap[slot] == node && forall i :: 0 <= i < maxSize && i != slot ==> heap[i] == old(heap[i])
      ensures ids[node.timerId] == slot && forall k :: 0 <= k < maxSize && k != node.timerId ==> ids[k] == old(ids[k])
    {
      heap[slot] := node;
      ids[node.timerId] := slot;
    }

    /** copy_node of the entry in slot `from` into the hole: the hole moves to `from`. */
    method MoveNode(slot: nat, from: nat, ghost moved: Entry)
      requires Hole(slot, moved) && from < |vals| && slot != from
      modifies heap, ids, `vals
      ensures Hole(from, moved) && vals == Swap(old(vals), slot, from)
      ensures forall k :: 0 <= k < maxSize && k !in live ==> ids[k] == old(ids[k])
    {
      CopyNode(slot, heap[from]);
      vals := Swap(vals, slot, from);
    }

    /** copy_node of the moved entry into the hole: the index is whole again. */
    method FillHole(slot: nat, moved: Entry)
      requires Hole(slot, moved)
      modifies heap, ids
      ensures Indexed()
      ensures forall k :: 0 <= k < maxSize && k !in live ==> ids[k] == old(ids[k])
    {
      CopyNode(slot, moved);
    }

    method ReheapUp(moved: Entry, slot0: nat, parent0: nat)
      requires Hole(slot0, moved) && UpHeap(vals, slot0) && parent0 == Parent(slot0)
      modifies heap, ids, `vals
      ensures Indexed() && HeapSeq(vals) && |vals| == |old(vals)|
      ensures forall k :: 0 <= k < maxSize && k !in live ==> ids[k] == old(ids[k])
    {
      var slot: nat, parent: nat := slot0, parent0;
      while slot > 0
        invariant Hole(slot, moved) && UpHeap(vals, slot) && parent == Parent(slot)
        invariant |vals| == |old(vals)|
        invariant forall k :: 0 <= k < maxSize && k !in live ==> ids[k] == old(ids[k])
      {
        if Lt(moved.value, heap[parent].value) {
          SiftUpStep(vals, slot);
          MoveNode(slot, parent, moved);
          slot := parent;
          parent := Parent(slot);
        } else {
          break;
        }
      }
      SiftUpDone(vals, slot);
      FillHole(slot, moved);
    }

    /** The choice between the two children at the head of the loop of reheap_down. */
    method SmallerChild(ghost slot: nat, child: nat, ghost moved: Entry) returns (c: nat)
      requires Hole(slot, moved) && |vals| == curSize && child == Left(slot) < curSize
      ensures FirstChild(vals, slot, c) && heap[c] != null && heap[c].value == vals[c]
    {
      c := child;
      if child + 1 < curSize && Lt(heap[child + 1].value, heap[child].value) {
        c := child + 1;
      }
    }

    method ReheapDown(moved: Entry, slot0: nat, child0: nat)
      requires Hole(slot0, moved) && DownHeap(vals, slot0) && child0 == Left(slot0)
      requires |vals| == curSize
      modifies heap, ids, `vals
      ensures Indexed() && HeapSeq(vals) && |vals| == curSize
      ensures forall k :: 0 <= k < maxSize && k !in live ==> ids[k] == old(ids[k])
    {
      var slot: nat, child: nat := slot0, child0;
      while child < curSize
        invariant Hole(slot, moved) && DownHeap(vals, slot) && child == Left(slot)
        invariant |vals| == curSize
        invariant forall k :: 0 <= k < maxSize && k !in live ==> ids[k] == old(ids[k])
        decreases curSize - slot
      {
        child := SmallerChild(slot, child, moved);
        if Lt(heap[child].value, moved.value) {
          SiftDownStep(vals, slot, child);
          MoveNode(slot, child, moved);
          slot := child;
          child := Left(child);
        } else {
          break;
        }
      }
      SiftDownDone(vals, slot, child);
      FillHole(slot, moved);
    }

    method PopFreelist() returns (newId: int)
      requires IdsSplit() && free != []
      modifies `freeHead, `free
      ensures newId == old(free[0]) && free == old(free[1..])
      ensures Chain(ids[..], freeHead, free, maxSize)
    {
      newId := freeHead;
      freeHead := -ids[freeHead];
      free := free[1..];
      assert ids[..] == old(ids[..]);
    }

    method PushFreelist(oldId: int)
      requires Arrays() && Chain(ids[..], freeHead, free, maxSize)
      requires 1 <= oldId < maxSize && oldId !in free
      modifies `freeHead, `free, ids
      ensures free == [oldId] + old(free) && Chain(ids[..], freeHead, free, maxSize)
      ensures ids[oldId] == -old(freeHead) && forall k :: 0 <= k < maxSize && k != oldId ==> ids[k] == old(ids[k])
    {
      ids[oldId] := -freeHead;
      ChainAgree(old(ids[..]), ids[..], freeHead, free, maxSize);
      assert ([oldId] + free)[1..] == free;
      freeHead := oldId;
      free := [oldId] + free;
      assert ids[..] == old(ids[..])[oldId := -old(freeHead)];
    }

    /** Sifting writes only the ids of scheduled entries. */
    twostate lemma IdsSplitKept()
      requires old(IdsSplit()) && Arrays()
      requires unchanged(`heap, `ids, `maxSize, `live, `free, `held, `freeHead)
      requires forall k :: 0 <= k < maxSize && k !in live ==> ids[k] == old(ids[k])
      ensures IdsSplit()
    {
      SplitMeans(live.Keys, free, held, maxSize);
      ChainAgree(old(ids[..]), ids[..], freeHead, free, maxSize);
    }

    /** The first half of remove_node: the id goes back to the freelist and the entry leaves the heap,
        with the last entry still to be moved into its slot. */
    method DetachNode(slot: nat) returns (removed: Entry)
      requires Core() && slot < curSize
      modifies `curSize, `freeHead, `free, `live, `entries, `vals, ids, (heap[slot] as Entry)`timerId
      ensures curSize == |vals| == old(curSize) - 1
      ensures entries == old(entries) - {removed} && vals == Replaced(old(vals), slot)
      ensures removed == heap[slot] && removed.timerId == -1
      ensures free == [old(removed.timerId)] + old(free) && IdsSplit()
      ensures slot == curSize ==> Indexed()
      ensures slot < curSize ==> heap[curSize] != null && Hole(slot, heap[curSize])
    {
      removed := heap[slot];
      PushId(slot, removed);
      Unlist(slot, removed);
    }

    method PushId(slot: nat, removed: Entry)
      requires Core() && slot < curSize && removed == heap[slot]
      modifies `freeHead, `free, ids
      ensures IndexedBut(slot, removed) && Arrays() && ids[0] == -1
      ensures free == [removed.timerId] + old(free) && Chain(ids[..], freeHead, free, maxSize)
      ensures Split(live.Keys - {removed.timerId}, free, held, maxSize)
    {
      var oldId := removed.timerId;
      assert oldId !in free by {
        SplitMeans(live.Keys, free, held, maxSize);
      }
      SplitPush(live.Keys, free, held, maxSize, oldId);
      PushFreelist(oldId);
    }

    method Unlist(slot: nat, removed: Entry)
      requires slot < curSize == |vals| && removed in entries && heap.Length > slot && heap[slot] == removed
      requires IndexedBut(slot, removed)
      modifies `curSize, `live, `entries, `vals, removed`timerId
      ensures curSize == |vals| == old(curSize) - 1
      ensures entries == old(entries) - {removed} && vals == Replaced(old(vals), slot)
      ensures live.Keys == old(live.Keys) - {old(removed.timerId)} && removed.timerId == -1
      ensures slot == curSize ==> Indexed()
      ensures slot < curSize ==> heap[curSize] != null && Hole(slot, heap[curSize])
    {
      hide IndexedBut, Indexed, Hole;
      Unname(slot, removed);
      Shorten(slot);
      curSize := curSize - 1;
    }

    /** The removed entry loses its id. */
    method Unname(slot: nat, removed: Entry)
      requires slot < |vals| && removed in entries && heap.Length > slot && heap[slot] == removed
      requires IndexedBut(slot, removed)
      modifies `live, `entries, removed`timerId
      ensures IndexedBut(slot, null) && entries == old(entries) - {removed}
      ensures live.Keys == old(live.Keys) - {old(removed.timerId)} && removed.timerId == -1
    {
      live := live - {removed.timerId};
      entries := entries - {removed};
      removed.timerId := -1;
      assert Named();
    }

    /** The last slot gives up its deadline to the hole, if it is not the hole itself. */
    ghost method Shorten(slot: nat)
      requires slot < |vals| && IndexedBut(slot, null)
      modifies `vals
      ensures vals == Replaced(old(vals), slot)
      ensures slot == |vals| ==> Indexed()
      ensures slot < |vals| ==> heap[|vals|] != null && Hole(slot, heap[|vals|])
    {
      vals := Replaced(vals, slot);
    }

    lemma SlotFilled(slot: nat)
      requires Core() && slot < curSize
      ensures heap.Length >= curSize && heap[slot] != null
    {
    }

    method RemoveNode(slot: nat) returns (removed: Entry)
      requires Core() && slot < curSize
      modifies `curSize, `freeHead, `free, `live, `entries, `vals, heap, ids, (heap[slot] as Entry)`timerId
      ensures Core() && curSize == old(curSize) - 1
      ensures removed == old(heap[slot]) && removed.timerId == -1
      ensures entries == old(entries) - {removed}
      ensures free == [old(removed.timerId)] + old(free)
    {
      hide Indexed, IndexedBut, Placed, IdsSplit, HeapSeq, UpHeap, DownHeap;
      assert heap.Length >= curSize && heap[slot] != null by { SlotFilled(slot); }
      removed := DetachNode(slot);
      if slot < curSize {
        var moved: Entry := heap[curSize];
        ReplaceInHeap(old(vals), slot);
        assert vals[slot] == moved.value;
        Reseat(slot, moved);
      } else {
        DropLast(old(vals));
      }
    }

    /** The second half of remove_node: copy the last entry into the hole and sift it in the direction its deadline
        asks for. */
    method Reseat(slot: nat, moved: Entry)
      requires Hole(slot, moved) && |vals| == curSize && IdsSplit()
      requires if Gte(moved.value, vals[Parent(slot)]) then DownHeap(vals, slot) else UpHeap(vals, slot)
      modifies heap, ids, `vals
      ensures Indexed() && HeapSeq(vals) && |vals| == curSize && IdsSplit()
    {
      hide HeapSeq, UpHeap, DownHeap, Chain, Split;
      label start:
      CopyNode(slot, moved);
      var parent := Parent(slot);
      assert heap[parent] != null && heap[parent].value == vals[parent];
      if Gte(moved.value, heap[parent].value) {
        ReheapDown(moved, slot, Left(slot));
      } else {
        ReheapUp(moved, slot, parent);
      }
      IdsSplitKept@start();
    }

    /** The allocations and copies of grow_heap. */
    static method GrownHeap(heap: array<Entry?>, newSize: nat) returns (newHeap: array<Entry?>)
      requires heap.Length <= newSize
      ensures fresh(newHeap) && newHeap.Length == newSize
      ensures forall i :: 0 <= i < heap.Length ==> newHeap[i] == heap[i]
    {
      newHeap := new Entry?[newSize](_ => null);
      for i := 0 to heap.Length
        invariant forall k :: 0 <= k < i ==> newHeap[k] == heap[k]
      {
        newHeap[i] := heap[i];
      }
    }

    static method GrownIds(ids: array<int>, newSize: nat) returns (newIds: array<int>)
      requires ids.Length <= newSize
      ensures fresh(newIds) && newIds.Length == newSize
      ensures forall k :: 0 <= k < ids.Length ==> newIds[k] == ids[k]
      ensures forall k :: ids.Length <= k < newSize ==> newIds[k] == -(k + 1)
    {
      newIds := new int[newSize];
      for i := 0 to ids.Length
        invariant forall k :: 0 <= k < i ==> newIds[k] == ids[k]
      {
        newIds[i] := ids[i];
      }
      for i := ids.Length to newSize
        invariant forall k :: 0 <= k < ids.Length ==> newIds[k] == ids[k]
        invariant forall k :: ids.Length <= k < i ==> newIds[k] == -(k + 1)
      {
        newIds[i] := -(i + 1);
      }
    }

    /** The tail of grow_heap: the new arrays replace the old ones, and the new ids follow the old sentinel on the
        freelist. */
    method Install(newHeap: array<Entry?>, newIds: array<int>, ghost moved: Entry)
      requires IndexedBut(-1, moved) && IdsSplit()
      requires newHeap.Length == newIds.Length == 2 * maxSize
      requires forall i :: 0 <= i < maxSize ==> newHeap[i] == heap[i]
      requires forall k :: 0 <= k < maxSize ==> newIds[k] == ids[k]
      requires forall k :: maxSize <= k < 2 * maxSize ==> newIds[k] == -(k + 1)
      modifies `heap, `ids, `maxSize, `free
      ensures heap == newHeap && ids == newIds && maxSize == 2 * old(maxSize)
      ensures IndexedBut(-1, moved) && IdsSplit()
      ensures free == old(free) + Fresh(old(maxSize), maxSize)
    {
      ChainGrow(ids[..], newIds[..], freeHead, free);
      SplitGrow(live.Keys, free, held, maxSize, newIds.Length);
      free := free + Fresh(maxSize, newIds.Length);
      heap := newHeap;
      ids := newIds;
      maxSize := newIds.Length;
    }

    /** Doubles both arrays; `moved` is the entry about to be inserted. */
    method GrowHeap(ghost moved: Entry)
      requires IndexedBut(-1, moved) && IdsSplit()
      modifies `heap, `ids, `maxSize, `free
      ensures fresh(heap) && fresh(ids) && maxSize == 2 * old(maxSize)
      ensures IndexedBut(-1, moved) && IdsSplit()
      ensures forall i :: 0 <= i < old(maxSize) ==> heap[i] == old(heap[i]) && ids[i] == old(ids[i])
      ensures free == old(free) + Fresh(old(maxSize), maxSize)
    {
      var newSize := maxSize * 2;
      var newHeap := GrownHeap(heap, newSize);
      var newIds := GrownIds(ids, newSize);
      Install(newHeap, newIds, moved);
    }

    /** The new entry's deadline stands behind the last leaf, where its hole is. */
    ghost method Extend(node: Entry)
      requires IndexedBut(-1, node) && node in entries && HeapSeq(vals) && |vals| == curSize < maxSize
      modifies `vals
      ensures Hole(curSize, node) && UpHeap(vals, curSize) && |vals| == curSize + 1
    {
      AppendToHeap(vals, node.value);
      vals := vals + [node.value];
    }

    /** The part of insert_node after the growth test. */
    method Append(node: Entry)
      requires IndexedBut(-1, node) && node in entries && HeapSeq(vals) && |vals| == curSize < maxSize && IdsSplit()
      modifies `curSize, `vals, heap, ids
      ensures Core() && curSize == old(curSize) + 1
    {
      hide Indexed, IndexedBut, HeapSeq, UpHeap, Hole, Chain, Split;
      Extend(node);
      label start:
      ReheapUp(node, curSize, Parent(curSize));
      IdsSplitKept@start();
      curSize := curSize + 1;
    }

    method InsertNode(node: Entry)
      requires IndexedBut(-1, node) && node in entries && HeapSeq(vals) && |vals| == curSize < maxSize && IdsSplit()
      modifies `heap, `ids, `maxSize, `free, `curSize, `vals, heap, ids
      ensures Core() && curSize == old(curSize) + 1
      ensures maxSize == GrownSize(old(curSize), old(maxSize))
      ensures maxSize == old(maxSize) || maxSize == 2 * old(maxSize)
      ensures maxSize == old(maxSize) <==> old(curSize) + 2 < old(maxSize)
      ensures maxSize == old(maxSize) ==> unchanged(`heap, `ids)
      ensures maxSize != old(maxSize) ==> fresh(heap) && fresh(ids)
    {
      if curSize + 2 >= maxSize {
        GrowHeap(node);
      }
      Append(node);
    }

    // ---------- The invariant of the whole heap ----------

    /** Exactly the scheduled entries among the known ones have a running id, and only they hold a lock; `x` is not
        looked at. */
    ghost predicate TrackedBut(x: Entry?)
      reads `entries, `known, `locks, known`timerId, known`value, known`grpLock
    {
      && entries <= known
      && (forall e :: e in known && e !in entries && e != x ==> e.Idle())
      && (forall e :: e in entries && e != x ==> Normal(e.value) && e.hasCb && (e.grpLock != null ==>
          e.grpLock in locks))
    }

    ghost predicate Tracked()
      reads `entries, `known, `locks, known`timerId, known`value, known`grpLock
    {
      TrackedBut(null)
    }

    ghost function Carriers(g: GroupLock): set<Entry>
      reads `entries, entries`grpLock
    {
      set e | e in entries && e.grpLock == g
    }

    /** The timer holds one reference for each scheduled entry carrying the lock and one for each callback in flight. */
    ghost predicate Counted(g: GroupLock)
      reads `entries, `inFlight, entries`grpLock, g
    {
      g.refCnt == g.others + |Carriers(g)| + inFlight[g]
    }

    ghost predicate Balanced()
      reads `entries, `inFlight, `locks, entries`grpLock, locks
    {
      && (forall g :: g in inFlight ==> g in locks)
      && (forall g :: g in locks ==> Counted(g))
    }

    ghost predicate Valid()
      reads this, heap, ids, known, locks
    {
      Tracked() && Core() && curSize + 2 <= maxSize && Balanced()
    }

    /** There is a free id besides those kept back for callbacks. */
    ghost predicate Headroom()
      reads this
    {
      curSize + |held| + 2 <= maxSize
    }

    lemma SizeIsCount()
      requires Indexed()
      ensures |entries| == |live| == |vals|
    {
      var n := |vals|;
      var es: seq<Entry> := seq(n, i requires 0 <= i < |vals| && Indexed() reads this, heap, ids, entries => heap[i]);
      var ks: seq<int> := seq(n, i requires 0 <= i < |vals| && Indexed() reads this, heap, ids,
          entries => heap[i].timerId);
      forall i, j | 0 <= i < j < n
        ensures es[i] != es[j] && ks[i] != ks[j]
      {
        assert ids[heap[i].timerId] == i && ids[heap[j].timerId] == j;
      }
      SortedQueue.DistinctSize(es);
      SortedQueue.DistinctSize(ks);
      forall e | e in entries
        ensures e in SortedQueue.Members(es)
      {
        assert es[ids[e.timerId]] == e;
      }
      assert SortedQueue.Members(es) == entries;
      forall id | id in live
        ensures id in SortedQueue.Members(ks)
      {
        assert ks[ids[id]] == id;
      }
      assert SortedQueue.Members(ks) == live.Keys;
    }

    /** The freelist is down to its sentinel exactly when there is no headroom. */
    lemma FreeIffHeadroom()
      requires Core()
      ensures free != [] <==> Headroom()
      ensures !Headroom() ==> freeHead == ids.Length
    {
      SizeIsCount();
      SplitMeans(live.Keys, free, held, maxSize);
    }

    /** What the invariant says about the two arrays, slot by slot and id by id. */
    lemma ValidMeans()
      requires Valid()
      ensures forall j :: 1 <= j < curSize ==>
                heap[Parent(j)] != null && heap[j] != null && Lte(heap[Parent(j)].value, heap[j].value)
      ensures forall i :: 0 <= i < curSize ==>
                heap[i] != null && 1 <= heap[i].timerId < ids.Length && ids[heap[i].timerId] == i
      ensures forall id :: id in live <==> exists i :: 0 <= i < curSize && heap[i] != null && heap[i].timerId == id
      ensures forall id :: 1 <= id < maxSize <==> id in live || id in free || id in held
      ensures forall id :: id in live ==> id !in free && id !in held
      ensures forall id :: id in free ==> id !in held
      ensures SortedQueue.Distinct(free) && Chain(ids[..], freeHead, free, maxSize)
      ensures forall g :: g in locks ==> g.refCnt == g.others + |Carriers(g)| + inFlight[g]
    {
      SplitMeans(live.Keys, free, held, maxSize);
      forall j | 1 <= j < curSize
        ensures heap[Parent(j)] != null && heap[j] != null && Lte(heap[Parent(j)].value, heap[j].value)
      {
        assert Edge(vals, Parent(j), j);
      }
      forall id | id in live
        ensures exists i :: 0 <= i < curSize && heap[i] != null && heap[i].timerId == id
      {
        assert heap[ids[id]] == live[id];
      }
    }

    /** An initialised entry is in the heap exactly when its id says that it is running; otherwise it holds no lock. */
    lemma ScheduledIffRunning(entry: Entry)
      requires Valid() && entry in known
      ensures entry in entries <==> entry.Running()
      ensures entry !in entries ==> entry.Idle()
      ensures entry.grpLock != null ==> entry.grpLock in locks
    {
    }

    /** When an entry leaves the heap, the reference that it carries counts as one in flight. */
    twostate lemma Withdrawn(entry: Entry)
      requires old(Tracked()) && old(Balanced()) && unchanged(`known, `locks) && unchanged(locks) && entry in known
      requires entries == old(entries) - {entry}
      requires inFlight == old(inFlight) + Reference(entry.grpLock)
      requires forall e :: e in known ==> e.value == old(e.value) && e.grpLock == old(e.grpLock)
      requires forall e :: e in known && e != entry ==> e.timerId == old(e.timerId)
      ensures TrackedBut(entry) && Balanced()
    {
      forall g | g in locks
        ensures Counted(g)
      {
        assert old(Counted(g));
        assert Carriers(g) == old(Carriers(g)) - {entry};
      }
    }

    static ghost function Reference(g: GroupLock?): multiset<GroupLock> {
      if g == null then multiset{} else multiset{g}
    }

    /** An entry that has left the heap gives up its lock. */
    method TakeOverLock(entry: Entry) returns (grpLock: GroupLock?)
      requires Core() && curSize + 2 <= maxSize && TrackedBut(entry) && Balanced()
      requires entry in known && entry !in entries && entry.timerId < 1
      modifies entry`grpLock
      ensures Valid() && grpLock == old(entry.grpLock) && entry.grpLock == null
    {
      grpLock := entry.grpLock;
      entry.grpLock := null;
      assert forall g :: Carriers(g) == old(Carriers(g));
    }

    // ---------- Scheduling ----------

    method ScheduleEntry(entry: Entry, futureTime: TimeVal) returns (rc: int)
      requires Valid() && entry in known && entry.hasCb && entry.timerId < 1 && Headroom() && Normal(futureTime)
      modifies `heap, `ids, `maxSize, `freeHead, `free, `live, `entries, `curSize, `vals, heap, ids, entry`timerId,
          entry`value
      ensures rc == 0 && Valid() && maxSize == GrownSize(old(curSize), old(maxSize))
      ensures heap == old(heap) || fresh(heap)
      ensures ids == old(ids) || fresh(ids)
      ensures entries == old(entries) + {entry} && entry.value == futureTime && curSize == old(curSize) + 1
      ensures entry !in old(entries) && entry.grpLock == null
    {
      hide Core, Balanced;
      if curSize < maxSize {
        InsertNew(entry, futureTime);
        BalanceAfterAdd(entry);
        return 0;
      } else {
        return -1;
      }
    }

    method InsertNew(entry: Entry, futureTime: TimeVal)
      requires Core() && curSize + 2 <= maxSize && Headroom() && entry.timerId < 1
      modifies `heap, `ids, `maxSize, `freeHead, `free, `live, `entries, `curSize, `vals, heap, ids, entry`timerId,
          entry`value
      ensures Core() && curSize == old(curSize) + 1 && curSize + 2 <= maxSize && maxSize == GrownSize(old(curSize),
          old(maxSize))
      ensures entry !in old(entries) && entries == old(entries) + {entry} && entry.value == futureTime
      ensures heap == old(heap) || fresh(heap)
      ensures ids == old(ids) || fresh(ids)
    {
      hide Indexed, IndexedBut, IdsSplit, HeapSeq;
      assert free != [] by { FreeIffHeadroom(); }
      TakeId(entry, futureTime);
      InsertNode(entry);
    }

    lemma IdIsFree(entry: Entry)
      requires Core() && free != []
      ensures free[0] !in live && 1 <= free[0] < maxSize
      ensures entry.timerId < 1 ==> entry !in entries
    {
      SplitMeans(live.Keys, free, held, maxSize);
    }

    method Name(entry: Entry, newId: int, futureTime: TimeVal)
      requires Indexed() && entry !in entries && newId !in live && 1 <= newId < maxSize
      modifies `live, `entries, entry`timerId, entry`value
      ensures IndexedBut(-1, entry) && live.Keys == old(live.Keys) + {newId}
      ensures entries == old(entries) + {entry} && entry.value == futureTime && entry.timerId == newId
    {
      entry.timerId := newId;
      entry.value := futureTime;
      live := live[newId := entry];
      entries := entries + {entry};
    }

    /** The id and the deadline that schedule_entry gives to an entry before inserting it. */
    method TakeId(entry: Entry, futureTime: TimeVal)
      requires Core() && free != [] && entry.timerId < 1
      modifies `freeHead, `free, `live, `entries, entry`timerId, entry`value
      ensures IndexedBut(-1, entry) && IdsSplit() && HeapSeq(vals) && |vals| == curSize
      ensures entry !in old(entries) && entries == old(entries) + {entry} && entry.value == futureTime &&
          entry.timerId >= 1
    {
      hide HeapSeq, Chain, Split, IndexedBut;
      assert entry !in entries && free[0] !in live && 1 <= free[0] < maxSize by { IdIsFree(entry); }
      SplitPop(live.Keys, free, held, maxSize);
      var newId := PopFreelist();
      Name(entry, newId, futureTime);
    }

    /** schedule_w_grp_lock; `now` is the tick count read. */
    method ScheduleWGrpLock(entry: Entry, delay: TimeVal, setId: bool, idVal: int, grpLock: GroupLock?, now: TimeVal)
      returns (status: Status)
      requires Valid() && entry in known && (grpLock != null ==> grpLock in locks)
      requires entry.hasCb && entry !in entries ==> Headroom()
      modifies `heap, `ids, `maxSize, `freeHead, `free, `live, `entries, `curSize, `vals, heap, ids, entry, locks`refCnt
      ensures Valid() && maxSize >= old(maxSize)
      ensures heap == old(heap) || fresh(heap)
      ensures ids == old(ids) || fresh(ids)
      ensures status == if !entry.hasCb then Einval else if old(entry in entries) then EinvalidOp else Succ
      ensures status != Succ ==> unchanged(this) && unchanged(entry) && unchanged(locks)
      ensures status == Succ ==>
                && entries == old(entries) + {entry} && curSize == old(curSize) + 1
                && maxSize == GrownSize(old(curSize), old(maxSize))
                && entry.value == OfMsec(Msec(now) + Msec(delay)) && entry.grpLock == grpLock
                && entry.id == (if setId then idVal else old(entry.id))
      ensures status == Succ ==>
                forall g :: g in locks ==> g.refCnt == old(g.refCnt) + (if g == grpLock then 1 else 0)
    {
      hide Core, Balanced, Tracked, TrackedBut;
      assert entry in entries <==> entry.Running() by { ScheduledIffRunning(entry); }
      if !entry.hasCb {
        return Einval;
      }
      if entry.timerId >= 1 {
        return EinvalidOp;
      }
      var expires := ExpiryTime(now, delay);
      status := Arm(entry, expires, setId, idVal, grpLock);
    }

    static method ExpiryTime(now: TimeVal, delay: TimeVal) returns (t: TimeVal)
      ensures t == OfMsec(Msec(now) + Msec(delay)) && Normal(t)
    {
      var expires := new TimeCell(now);
      expires.Add(delay);
      NormalFormExistsAndIsUnique(Msec(now) + Msec(delay), expires.Value());
      t := TimeVal(expires.sec, expires.msec);
    }

    /** The part of schedule_w_grp_lock that runs under the heap's lock. */
    method Arm(entry: Entry, expires: TimeVal, setId: bool, idVal: int, grpLock: GroupLock?) returns (status: Status)
      requires Valid() && entry in known && (grpLock != null ==> grpLock in locks)
      requires entry.hasCb && entry.timerId < 1 && Headroom() && Normal(expires)
      modifies `heap, `ids, `maxSize, `freeHead, `free, `live, `entries, `curSize, `vals, heap, ids, entry, locks`refCnt
      ensures Valid() && maxSize == GrownSize(old(curSize), old(maxSize)) && status == Succ
      ensures heap == old(heap) || fresh(heap)
      ensures ids == old(ids) || fresh(ids)
      ensures entries == old(entries) + {entry} && curSize == old(curSize) + 1
      ensures entry.value == expires && entry.grpLock == grpLock
      ensures entry.id == (if setId then idVal else old(entry.id))
      ensures forall g :: g in locks ==> g.refCnt == old(g.refCnt) + (if g == grpLock then 1 else 0)
    {
      hide Core, Balanced, Tracked, TrackedBut, Headroom, Normal;
      var rc := ScheduleEntry(entry, expires);
      if rc == 0 {
        if setId {
          entry.id := idVal;
        }
        TakeLock(entry, grpLock);
      }
      status := Succ;
    }

    /** The entry joins the group lock's references. */
    method TakeLock(entry: Entry, grpLock: GroupLock?)
      requires Tracked() && Balanced()
      requires entry in entries && entry.grpLock == null && (grpLock != null ==> grpLock in locks)
      modifies entry`grpLock, locks`refCnt
      ensures Tracked() && Balanced() && entry.grpLock == grpLock
      ensures forall g :: g in locks ==> g.refCnt == old(g.refCnt) + (if g == grpLock then 1 else 0)
    {
      entry.grpLock := grpLock;
      if entry.grpLock != null {
        entry.grpLock.AddRef();
      }
      BalanceAfterLock(entry);
    }

    twostate lemma BalanceAfterLock(entry: Entry)
      requires old(Balanced()) && unchanged(this) && entry in entries && old(entry.grpLock) == null
      requires forall e :: e in entries && e != entry ==> e.grpLock == old(e.grpLock)
      requires forall g :: g in locks ==> g.others == old(g.others)
      requires forall g :: g in locks ==> g.refCnt == old(g.refCnt) + (if g == entry.grpLock then 1 else 0)
      ensures Balanced()
    {
      forall g | g in locks
        ensures Counted(g)
      {
        assert old(Counted(g));
        assert Carriers(g) == old(Carriers(g)) + (if g == entry.grpLock then {entry} else {});
      }
    }

    /** A new entry without a lock leaves the counts alone. */
    twostate lemma BalanceAfterAdd(entry: Entry)
      requires old(Balanced()) && unchanged(`locks, `inFlight) && unchanged(locks)
      requires entries == old(entries) + {entry} && entry.grpLock == null
      requires forall e :: e in old(entries) ==> e.grpLock == old(e.grpLock)
      ensures Balanced()
    {
      forall g | g in locks
        ensures Counted(g)
      {
        assert old(Counted(g));
        assert Carriers(g) == old(Carriers(g));
      }
    }

    // ---------- Creation ----------

    /** The loop of em_timer_heap_create that chains all ids. */
    static method InitIds(n: nat) returns (ids: array<int>)
      ensures fresh(ids) && ids.Length == n
      ensures forall k :: 0 <= k < n ==> ids[k] == -(k + 1)
    {
      ids := new int[n];
      for i := 0 to n
        invariant forall k :: 0 <= k < i ==> ids[k] == -(k + 1)
      {
        ids[i] := -(i + 1);
      }
    }

    /** em_timer_heap_create, where the pool does not run out of memory. */
    constructor (size: nat)
      ensures Valid() && entries == {} && held == {} && Headroom()
      ensures curSize == 0 && maxSize == size + 2 && maxPerPoll == DEFAULT_MAX_TIMED_OUT_PER_POLL
      ensures known == {} && locks == {} && inFlight == multiset{}
      ensures fresh(heap) && fresh(ids)
    {
      var n := size + 2;
      maxSize := n;
      curSize := 0;
      maxPerPoll := DEFAULT_MAX_TIMED_OUT_PER_POLL;
      freeHead := 1;
      heap := new Entry?[n](_ => null);
      var chained := InitIds(n);
      ids := chained;
      entries, live, free, held, vals := {}, map[], Fresh(1, n), {}, [];
      known, locks, inFlight := {}, {}, multiset{};
      new;
      ChainFresh(ids[..], 1, n);
      assert Split({}, [], {}, 1);
      SplitGrow({}, [], {}, 1, n);
      assert [] + Fresh(1, n) == Fresh(1, n) && live.Keys == {};
    }

    /** From now on the heap's users may pass these initialised entries to it. */
    ghost method Adopt(es: set<Entry>)
      requires Valid() && forall e :: e in es ==> e in known || e.Idle()
      modifies `known
      ensures Valid() && known == old(known) + es
    {
      known := known + es;
      assert forall g :: g in locks ==> Carriers(g) == old(Carriers(g)) && Counted(g);
    }

    lemma NoCarrier(g: GroupLock)
      requires Tracked() && g !in locks
      ensures Carriers(g) == {}
    {
    }

    /** From now on entries may carry this group lock. */
    ghost method AdoptLock(g: GroupLock)
      requires Valid() && g !in locks
      modifies `locks, g`others
      ensures Valid() && locks == old(locks) + {g}
    {
      hide Core, Carriers;
      assert Carriers(g) == {} by { NoCarrier(g); }
      g.others := g.refCnt;
      locks := locks + {g};
      assert inFlight[g] == 0;
      assert forall h :: h in old(locks) ==> Carriers(h) == old(Carriers(h)) && Counted(h);
    }

    // ---------- Cancelling ----------

    /** cancel with F_DONT_CALL, as cancel_timer always calls it; the branch for a foreign entry in the slot is dead. */
    method Cancel(entry: Entry) returns (count: int)
      requires Core() && (entry in entries || entry.timerId < 1)
      modifies `curSize, `freeHead, `free, `live, `entries, `vals, heap, ids, entry`timerId
      ensures Core() && entries == old(entries) - {entry} && entry.timerId == -1
      ensures count == (if entry in old(entries) then 1 else 0) && curSize == old(curSize) - count
    {
      count := 0;
      if entry.timerId < 0 || entry.timerId > maxSize {
        entry.timerId := -1;
        return 0;
      }
      var slot := ids[entry.timerId];
      if slot < 0 {
        entry.timerId := -1;
        return 0;
      }
      if entry != heap[slot] {
        assert false;
      } else {
        var _ := RemoveNode(slot);
        count := 1;
      }
    }

    /** cancel_timer, behind em_timer_heap_cancel and em_timer_heap_cancel_if_active. */
    method CancelTimer(entry: Entry, setId: bool, idVal: int) returns (count: int)
      requires Valid() && entry in known
      modifies `curSize, `freeHead, `free, `live, `entries, `vals, `inFlight, heap, ids, entry, locks`refCnt
      ensures Valid() && entries == old(entries) - {entry} && entry.timerId == -1 && inFlight == old(inFlight)
      ensures count == (if entry in old(entries) then 1 else 0) && curSize == old(curSize) - count
      ensures entry.id == (if setId then idVal else old(entry.id)) && entry.value == old(entry.value)
    {
      hide Core, Balanced, Tracked;
      var grpLock: GroupLock?;
      count, grpLock := Withdraw(entry, setId, idVal);
      DropReference(grpLock);
    }

    /** The body of cancel_timer up to the point where it drops the reference of the entry's lock. */
    method Withdraw(entry: Entry, setId: bool, idVal: int) returns (count: int, grpLock: GroupLock?)
      requires Valid() && entry in known
      modifies `curSize, `freeHead, `free, `live, `entries, `vals, `inFlight, heap, ids, entry
      ensures Valid() && entries == old(entries) - {entry} && entry.timerId == -1
      ensures count == (if entry in old(entries) then 1 else 0) && curSize == old(curSize) - count
      ensures entry.id == (if setId then idVal else old(entry.id)) && entry.value == old(entry.value)
      ensures grpLock == old(entry.grpLock) && inFlight == old(inFlight) + Reference(grpLock)
    {
      hide Core, Balanced, Tracked, TrackedBut;
      count := CancelKeepingReference(entry);
      if setId {
        entry.id := idVal;
      }
      grpLock := TakeOverLock(entry);
    }

    method CancelKeepingReference(entry: Entry) returns (count: int)
      requires Valid() && entry in known
      modifies `curSize, `freeHead, `free, `live, `entries, `vals, `inFlight, heap, ids, entry`timerId
      ensures Core() && curSize + 2 <= maxSize && TrackedBut(entry) && Balanced()
      ensures entries == old(entries) - {entry} && entry.timerId == -1
      ensures count == (if entry in old(entries) then 1 else 0) && curSize == old(curSize) - count
      ensures inFlight == old(inFlight) + Reference(entry.grpLock)
    {
      hide Core, Balanced, Tracked, TrackedBut;
      assert (entry in entries <==> entry.Running()) && (entry.grpLock != null ==> entry.grpLock in locks) by {
        ScheduledIffRunning(entry);
      }
      count := Cancel(entry);
      inFlight := inFlight + Reference(entry.grpLock);
      assert TrackedBut(entry) && Balanced() by { Withdrawn(entry); }
    }

    // ---------- Polling ----------

    /** The head of the poll loop: the first entry leaves the heap, and its id is kept back until the callback is
        done. */
    method FireFirst() returns (node: Entry, nodeTimerId: int, grpLock: GroupLock?)
      requires Valid() && curSize > 0
      modifies `curSize, `freeHead, `free, `live, `entries, `vals, `held, `inFlight, heap, ids,
               (heap[0] as Entry)`timerId, (heap[0] as Entry)`grpLock
      ensures Valid() && node == old(heap[0]) && entries == old(entries) - {node} && curSize == old(curSize) - 1
      ensures node in old(entries) && forall e :: e in old(entries) ==> Lte(node.value, e.value)
      ensures grpLock == old(node.grpLock) && inFlight == old(inFlight) + Reference(grpLock)
      ensures held == old(held) + {nodeTimerId} && nodeTimerId !in old(held)
      ensures Agenda() == old(Agenda()) - {node}
    {
      hide Core, Balanced, Tracked, TrackedBut;
      assert heap.Length > 0 && heap[0] != null && heap[0] in entries && heap[0] in known
        && forall e :: e in entries ==> Lte(heap[0].value, e.value) by { FirstIsEarliest(); }
      node, nodeTimerId := FireKeepingReference();
      grpLock := TakeOverLock(node);
    }

    method FireKeepingReference() returns (node: Entry, nodeTimerId: int)
      requires Valid() && curSize > 0
      modifies `curSize, `freeHead, `free, `live, `entries, `vals, `held, `inFlight, heap, ids,
          (heap[0] as Entry)`timerId
      ensures Core() && curSize + 2 <= maxSize && TrackedBut(node) && Balanced()
      ensures node == old(heap[0]) && entries == old(entries) - {node} && curSize == old(curSize) - 1
      ensures node.timerId == -1 && inFlight == old(inFlight) + Reference(node.grpLock)
      ensures held == old(held) + {nodeTimerId} && nodeTimerId !in old(held)
    {
      hide Core, Balanced, Tracked, TrackedBut;
      assert heap.Length > 0 && heap[0] != null && heap[0] in entries && heap[0] in known
             && (heap[0].grpLock != null ==> heap[0].grpLock in locks) by { FirstIsEarliest(); }
      node, nodeTimerId := TakeFirst();
      inFlight := inFlight + Reference(node.grpLock);
      assert TrackedBut(node) && Balanced() by { Withdrawn(node); }
    }

    lemma FirstIsEarliest()
      requires Valid() && curSize > 0
      ensures heap.Length > 0 && heap[0] != null && heap[0] in entries && heap[0] in known && heap[0].hasCb
      ensures heap[0].grpLock != null ==> heap[0].grpLock in locks
      ensures forall e :: e in entries ==> Lte(heap[0].value, e.value)
    {
      forall e | e in entries
        ensures Lte(heap[0].value, e.value)
      {
        RootIsLeast(vals, ids[e.timerId]);
      }
    }

    /** remove_node(0) followed by pop_freelist, which gives the same id back. */
    method TakeFirst() returns (node: Entry, nodeTimerId: int)
      requires Core() && curSize > 0 && curSize + 2 <= maxSize
      modifies `curSize, `freeHead, `free, `live, `entries, `vals, `held, heap, ids, (heap[0] as Entry)`timerId
      ensures Core() && node == old(heap[0]) && entries == old(entries) - {node} && curSize == old(curSize) - 1
      ensures node.timerId == -1
      ensures held == old(held) + {nodeTimerId} && nodeTimerId !in old(held)
    {
      hide Indexed, HeapSeq, Chain, Split;
      node := RemoveNode(0);
      assert free[0] !in live by { IdIsFree(node); }
      SplitPop(live.Keys, free, held, maxSize);
      SplitNotHeld(live.Keys, free, held, maxSize);
      nodeTimerId := PopFreelist();
      SplitHold(live.Keys + {nodeTimerId}, free, held, maxSize, nodeTimerId);
      assert live.Keys + {nodeTimerId} - {nodeTimerId} == live.Keys;
      held := held + {nodeTimerId};
    }

    /** The tail of the poll loop: the lock reference is dropped and the id becomes free again. */
    method EndFire(nodeTimerId: int, grpLock: GroupLock?)
      requires Valid() && nodeTimerId in held && (grpLock != null ==> grpLock in inFlight)
      modifies `freeHead, `free, `held, `inFlight, ids, locks`refCnt
      ensures Valid() && held == old(held) - {nodeTimerId}
      ensures inFlight == old(inFlight) - Reference(grpLock)
    {
      hide Core, Balanced, Tracked;
      DropReference(grpLock);
      ReleaseId(nodeTimerId);
    }

    method DropReference(grpLock: GroupLock?)
      requires Balanced() && (grpLock != null ==> grpLock in inFlight)
      modifies `inFlight, locks`refCnt
      ensures Balanced()
      ensures inFlight == old(inFlight) - Reference(grpLock)
      ensures forall g :: g in locks ==> g.refCnt == old(g.refCnt) - (if g == grpLock then 1 else 0)
    {
      hide Carriers;
      if grpLock != null {
        grpLock.DecRef();
        inFlight := inFlight - multiset{grpLock};
      }
      forall g | g in locks
        ensures Counted(g)
      {
        assert old(Counted(g));
        assert Carriers(g) == old(Carriers(g));
      }
    }

    method ReleaseId(nodeTimerId: int)
      requires Core() && nodeTimerId in held
      modifies `freeHead, `free, `held, ids
      ensures Core() && held == old(held) - {nodeTimerId}
    {
      assert 1 <= nodeTimerId < maxSize && nodeTimerId !in free && nodeTimerId !in live by {
        SplitMeans(live.Keys, free, held, maxSize);
      }
      SplitRelease(live.Keys, free, held, maxSize, nodeTimerId);
      SplitPush(live.Keys + {nodeTimerId}, free, held - {nodeTimerId}, maxSize, nodeTimerId);
      assert live.Keys + {nodeTimerId} - {nodeTimerId} == live.Keys;
      PushFreelist(nodeTimerId);
      held := held - {nodeTimerId};
    }

    /** The abstract value of the heap: what is scheduled, and for when. */
    ghost function Agenda(): (q: map<Entry, Item>)
      reads `entries, entries`value, entries`grpLock
      ensures q.Keys == entries
    {
      map e | e in entries :: Item(e.value, e.grpLock)
    }

    /** The objects that a callback names are known to the heap. */
    ghost predicate Permitted(actions: seq<Action>)
      reads `known, `locks
    {
      forall a :: a in actions ==> a.entry in known && (a.Schedule? && a.lock != null ==> a.lock in locks)
    }

    /** One public operation, and what it means. */
    method Perform(a: Action)
      requires Valid() && Permitted([a]) && (Grows(a, entries) == 1 ==> Headroom())
      modifies `heap, `ids, `maxSize, `freeHead, `free, `live, `entries, `curSize, `vals, `inFlight, heap, ids,
          a.entry, locks`refCnt
      ensures Valid() && inFlight == old(inFlight)
      ensures heap == old(heap) || fresh(heap)
      ensures ids == old(ids) || fresh(ids)
      ensures Agenda() == Effect(a, old(Agenda())) && maxSize == Capacity(a, old(Agenda()), old(maxSize))
    {
      hide Core, Balanced, Tracked, TrackedBut;
      assert a in [a];
      if a.Cancel? {
        PerformCancel(a);
      } else {
        assert a.entry in entries <==> a.entry.Running() by { ScheduledIffRunning(a.entry); }
        if a.entry.hasCb && !a.entry.Running() {
          PerformNew(a);
        } else {
          PerformRefused(a);
        }
      }
    }

    static lemma AgendaGrew(q: map<Entry, Item>, q': map<Entry, Item>, a: Action)
      requires a.Schedule? && a.entry.hasCb && a.entry !in q && q'.Keys == q.Keys + {a.entry}
      requires q'[a.entry] == Item(OfMsec(Msec(a.now) + Msec(a.delay)), a.lock)
      requires forall e :: e in q ==> q'[e] == q[e]
      ensures q' == Effect(a, q)
    {
    }

    lemma AgendaAt()
      ensures forall e :: e in entries ==> Agenda()[e] == Item(e.value, e.grpLock)
    {
    }

    lemma CapacityNow(a: Action)
      requires Valid() && Grows(a, entries) == 1
      ensures Capacity(a, Agenda(), maxSize) == GrownSize(curSize, maxSize)
    {
      EntryCount();
    }

    lemma PermittedMeans(a: Action)
      requires Valid() && Permitted([a])
      ensures a.entry in known && (a.Schedule? && a.lock != null ==> a.lock in locks) && entries <= known
    {
      assert a in [a];
    }

    /** A schedule that is accepted. */
    method PerformNew(a: Action)
      requires Valid() && Permitted([a]) && a.Schedule? && Grows(a, entries) == 1 && Headroom()
      modifies `heap, `ids, `maxSize, `freeHead, `free, `live, `entries, `curSize, `vals, heap, ids, a.entry,
          locks`refCnt
      ensures Valid() && maxSize == Capacity(a, old(Agenda()), old(maxSize))
      ensures heap == old(heap) || fresh(heap)
      ensures ids == old(ids) || fresh(ids)
      ensures Agenda() == Effect(a, old(Agenda()))
    {
      hide Core, Balanced, Tracked, TrackedBut, Effect, Agenda, Capacity, GrownSize;
      assert a.entry in known && (a.lock != null ==> a.lock in locks) && entries <= known by { PermittedMeans(a); }
      assert Capacity(a, Agenda(), maxSize) == GrownSize(curSize, maxSize) by { CapacityNow(a); }
      ghost var q := Agenda();
      AgendaAt();
      var _ := ScheduleWGrpLock(a.entry, a.delay, a.setId, a.idVal, a.lock, a.now);
      AgendaAt();
      AgendaGrew(q, Agenda(), a);
    }

    /** A schedule that is refused. */
    method PerformRefused(a: Action)
      requires Valid() && Permitted([a]) && a.Schedule? && Grows(a, entries) == 0
      modifies `heap, `ids, `maxSize, `freeHead, `free, `live, `entries, `curSize, `vals, heap, ids, a.entry,
          locks`refCnt
      ensures Valid() && unchanged(this) && Agenda() == Effect(a, old(Agenda()))
    {
      hide Core, Balanced, Tracked, TrackedBut;
      assert a in [a];
      var _ := ScheduleWGrpLock(a.entry, a.delay, a.setId, a.idVal, a.lock, a.now);
    }

    method PerformCancel(a: Action)
      requires Valid() && Permitted([a]) && a.Cancel?
      modifies `curSize, `freeHead, `free, `live, `entries, `vals, `inFlight, heap, ids, a.entry, locks`refCnt
      ensures Valid() && inFlight == old(inFlight)
      ensures Agenda() == Effect(a, old(Agenda()))
    {
      hide Core, Balanced, Tracked, TrackedBut;
      assert a in [a];
      var _ := CancelTimer(a.entry, a.setId, a.idVal);
    }

    lemma NoRoomNoId()
      requires Valid() && !Headroom()
      ensures free == [] && freeHead == ids.Length
    {
      FreeIffHeadroom();
    }

    /** While a callback runs, there is a free id for an operation that needs one exactly if there is room. */
    lemma RoomIffFree(a: Action)
      requires Valid() && |held| == 1 && Grows(a, entries) == 1
      ensures RoomAt(a, Agenda(), maxSize) <==> Headroom()
      ensures Headroom() <==> free != []
      ensures !Headroom() ==> freeHead == ids.Length
    {
      SizeIsCount();
      FreeIffHeadroom();
    }

    /** A callback, as the sequence of operations that it performs on the heap. */
    method RunCallback(actions: seq<Action>)
      requires Valid() && |held| == 1 && Permitted(actions) && RoomFor(actions, Agenda(), maxSize)
      modifies `heap, `ids, `maxSize, `freeHead, `free, `live, `entries, `curSize, `vals, `inFlight, heap, ids,
          known, locks`refCnt
      ensures Valid() && inFlight == old(inFlight) && maxSize == old(maxSize)
      ensures heap == old(heap) || fresh(heap)
      ensures ids == old(ids) || fresh(ids)
      ensures Agenda() == Effects(actions, old(Agenda()))
    {
      hide Core, Balanced, Tracked, TrackedBut, Effect, Grows, Capacity, RoomAt, RoomFor;
      for i := 0 to |actions|
        invariant Valid() && inFlight == old(inFlight) && maxSize == old(maxSize)
        invariant heap == old(heap) || fresh(heap)
        invariant ids == old(ids) || fresh(ids)
        invariant Agenda() == Effects(actions[..i], old(Agenda()))
      {
        var a := actions[i];
        assert a in actions;
        RoomStep(actions, i, old(Agenda()), Agenda(), maxSize);
        if Grows(a, entries) == 1 {
          RoomIffFree(a);
        }
        Perform(a);
      }
      assert actions[..|actions|] == actions;
    }

    /** A callback that does not find room goes without an id: its first operation that breaks the condition would pop
        the sentinel and read past the array. */
    method RunUntilNoRoom(actions: seq<Action>, i: nat)
      requires Valid() && |held| == 1 && Permitted(actions) && LacksRoomAt(actions, i, Agenda(), maxSize)
      modifies `heap, `ids, `maxSize, `freeHead, `free, `live, `entries, `curSize, `vals, `inFlight, heap, ids,
          known, locks`refCnt
      ensures Valid() && Agenda() == Effects(actions[..i], old(Agenda()))
      ensures Grows(actions[i], entries) == 1 && free == [] && freeHead == ids.Length
    {
      hide Core, Balanced, Tracked, TrackedBut, Effect, Effects, RoomFor;
      RunCallback(actions[..i]);
      RoomIffFree(actions[i]);
    }

    lemma FirstIsFirstDue(now: TimeVal)
      requires Valid() && curSize > 0 && FirstDue(now)
      ensures heap.Length > 0 && heap[0] != null && heap[0] in known && heap[0].hasCb
      ensures IsFirstDue(Agenda(), heap[0], now)
    {
      FirstIsEarliest();
    }

    /** One iteration of the poll loop. */
    method FireOne(actions: seq<Action>, now: TimeVal) returns (ghost node: Entry)
      requires Valid() && curSize > 0 && FirstDue(now) && held == {} && inFlight == multiset{}
      requires Permitted(actions)
      requires forall e :: e in entries && IsFirstDue(Agenda(), e, now) ==> RoomFor(actions, Agenda() - {e}, maxSize)
      modifies `heap, `ids, `maxSize, `freeHead, `free, `live, `entries, `curSize, `vals, `held, `inFlight
      modifies heap, ids, known, locks`refCnt
      ensures Valid() && held == {} && inFlight == multiset{}
      ensures heap == old(heap) || fresh(heap)
      ensures ids == old(ids) || fresh(ids)
      ensures IsFirstDue(old(Agenda()), node, now) && Agenda() == Effects(actions, old(Agenda()) - {node})
      ensures maxSize == old(maxSize)
    {
      hide Core, Balanced, Tracked, TrackedBut, Effects, IsFirstDue, RoomFor;
      assert heap.Length > 0 && heap[0] != null && heap[0] in known && heap[0].hasCb
             && IsFirstDue(Agenda(), heap[0], now) by { FirstIsFirstDue(now); }
      var fired, nodeTimerId, grpLock := FireFirst();
      node := fired;
      assert |held| == 1;
      Complete(fired.hasCb, actions, nodeTimerId, grpLock);
    }

    /** The rest of the iteration: the callback, if there is one, and the clean-up after it. */
    method Complete(hasCb: bool, actions: seq<Action>, nodeTimerId: int, grpLock: GroupLock?)
      requires Valid() && held == {nodeTimerId} && inFlight == Reference(grpLock)
      requires Permitted(actions) && RoomFor(actions, Agenda(), maxSize)
      modifies `heap, `ids, `maxSize, `freeHead, `free, `live, `entries, `curSize, `vals, `held, `inFlight
      modifies heap, ids, known, locks`refCnt
      ensures Valid() && held == {} && inFlight == multiset{}
      ensures heap == old(heap) || fresh(heap)
      ensures ids == old(ids) || fresh(ids)
      ensures Agenda() == if hasCb then Effects(actions, old(Agenda())) else old(Agenda())
      ensures maxSize == old(maxSize)
    {
      hide Core, Balanced, Tracked, TrackedBut, Effects, RoomFor;
      if hasCb {
        RunCallback(actions);
      }
      EndFire(nodeTimerId, grpLock);
    }

    predicate FirstDue(now: TimeVal)
      requires Valid() && curSize > 0
      reads this, heap, ids, known, locks
    {
      Lte(heap[0].value, now)
    }

    lemma EntryCount()
      requires Valid()
      ensures curSize == |entries|
    {
      SizeIsCount();
    }

    lemma EmptyIffSizeZero()
      requires Valid()
      ensures curSize == 0 <==> entries == {}
    {
      SizeIsCount();
    }

    /** The time from now to the earliest deadline, or 0 when that has passed; without any entry, the largest delay. */
    ghost predicate UntilEarliest(delay: TimeVal, now: TimeVal)
      reads `entries, entries`value
    {
      if entries == {} then delay == TimeVal(EM_MAXINT32, EM_MAXINT32)
      else exists e :: e in entries && (forall f :: f in entries ==> Lte(e.value, f.value))
                    && delay == OfMsec(IntMax(0, Msec(e.value) - Msec(now)))
    }

    /** The delay reported at the end of a poll. */
    method NextDelay(now: TimeVal) returns (delay: TimeVal)
      requires Valid()
      ensures UntilEarliest(delay, now)
    {
      EmptyIffSizeZero();
      if curSize > 0 {
        FirstIsEarliest();
        hide Core, Balanced, Tracked, TrackedBut;
        var cell := new TimeCell(heap[0].value);
        cell.Sub(now);
        if cell.sec < 0 || cell.msec < 0 {
          cell.sec := 0;
          cell.msec := 0;
        }
        delay := TimeVal(cell.sec, cell.msec);
        assert delay == OfMsec(IntMax(0, Msec(heap[0].value) - Msec(now)));
      } else {
        delay := TimeVal(EM_MAXINT32, EM_MAXINT32);
      }
    }

    /** em_timer_heap_poll.  script[k] is what the k-th callback does, nothing once the script is at its end;
        `now` is the tick count read, and wantDelay says that next_delay is not NULL. */
    method Poll(now: TimeVal, script: seq<seq<Action>>, wantDelay: bool)
      returns (count: nat, nextDelay: Option<TimeVal>, ghost fired: seq<Entry>)
      requires Valid() && held == {} && inFlight == multiset{}
      requires forall k :: 0 <= k < |script| ==> Permitted(script[k])
      requires PollRoom(Agenda(), script, 0, now, maxPerPoll, maxSize, [])
      modifies `heap, `ids, `maxSize, `freeHead, `free, `live, `entries, `curSize, `vals, `held, `inFlight
      modifies heap, ids, known, locks`refCnt
      ensures Valid() && held == {} && inFlight == multiset{}
      ensures heap == old(heap) || fresh(heap)
      ensures ids == old(ids) || fresh(ids)
      ensures Polled(old(Agenda()), script, now, maxPerPoll, fired, Agenda()) && count == |fired|
      ensures count <= maxPerPoll && maxSize == old(maxSize)
      ensures nextDelay.Some? == wantDelay && (wantDelay ==> UntilEarliest(nextDelay.value, now))
    {
      hide Core, Balanced, Tracked, TrackedBut, Polled, PollRoom;
      assert curSize == 0 <==> entries == {} by { EmptyIffSizeZero(); }
      if curSize == 0 && wantDelay {
        NothingPolled(Agenda(), script, now, maxPerPoll);
        return 0, Some(TimeVal(EM_MAXINT32, EM_MAXINT32)), [];
      }
      count, fired := FireDue(now, script);
      nextDelay := None;
      if wantDelay {
        var delay := NextDelay(now);
        nextDelay := Some(delay);
      }
    }

    /** The poll loop. */
    method FireDue(now: TimeVal, script: seq<seq<Action>>) returns (count: nat, ghost fired: seq<Entry>)
      requires Valid() && held == {} && inFlight == multiset{}
      requires forall k :: 0 <= k < |script| ==> Permitted(script[k])
      requires PollRoom(Agenda(), script, 0, now, maxPerPoll, maxSize, [])
      modifies `heap, `ids, `maxSize, `freeHead, `free, `live, `entries, `curSize, `vals, `held, `inFlight
      modifies heap, ids, known, locks`refCnt
      ensures Valid() && held == {} && inFlight == multiset{}
      ensures heap == old(heap) || fresh(heap)
      ensures ids == old(ids) || fresh(ids)
      ensures Polled(old(Agenda()), script, now, maxPerPoll, fired, Agenda()) && count == |fired| <= maxPerPoll
      ensures maxSize == old(maxSize)
    {
      hide Core, Balanced, Tracked, TrackedBut, IsFirstDue, Effects, NoneDue, RoomFor, PollRoom;
      count, fired := 0, [];
      while curSize > 0 && FirstDue(now) && count < maxPerPoll
        invariant Valid() && held == {} && inFlight == multiset{}
        invariant heap == old(heap) || fresh(heap)
        invariant ids == old(ids) || fresh(ids)
        invariant count == |fired| <= maxPerPoll && maxSize == old(maxSize)
        invariant FiresInOrder(old(Agenda()), script, fired, now)
        invariant Agenda() == AgendaAfter(old(Agenda()), script, fired)
        decreases maxPerPoll - count
      {
        RoomAlong(old(Agenda()), script, fired, now, maxPerPoll, maxSize, []);
        RoomNow(Agenda(), script, count, now, maxPerPoll - count, maxSize);
        ghost var node := FireOne(ScriptAt(script, count), now);
        assert (fired + [node])[..count] == fired;
        fired := fired + [node];
        count := count + 1;
      }
      NothingDue(now);
    }

    lemma NothingDue(now: TimeVal)
      requires Valid()
      ensures curSize == 0 || !FirstDue(now) ==> NoneDue(Agenda(), now)
    {
      EmptyIffSizeZero();
      if curSize > 0 {
        FirstIsEarliest();
      }
    }
  }

  ghost predicate Names(actions: seq<Action>, es: set<Entry>, gs: set<GroupLock>) {
    forall a :: a in actions ==> a.entry in es && (a.Schedule? && a.lock != null ==> a.lock in gs)
  }

  /** The call names only these objects. */
  ghost predicate Allowed(call: Call, es: set<Entry>, gs: set<GroupLock>) {
    match call
    case Do(a) => Names([a], es, gs)
    case DoPoll(_, script, _) => forall k :: 0 <= k < |script| ==> Names(script[k], es, gs)
  }

  /** What one call means for the agenda; fired are the entries that a poll fires. */
  ghost predicate Performed(call: Call, limit: nat, q: map<Entry, Item>, fired: seq<Entry>, q': map<Entry, Item>) {
    match call
    case Do(a) => q' == Effect(a, q)
    case DoPoll(now, script, _) => Polled(q, script, now, limit, fired, q')
  }

  /** A run on the agenda, call by call. */
  ghost predicate Traced(calls: seq<Call>, limit: nat, trace: seq<map<Entry, Item>>, fired: seq<seq<Entry>>) {
    && |trace| == |fired| + 1 && |fired| <= |calls|
    && forall i :: 0 <= i < |fired| ==> Performed(calls[i], limit, trace[i], fired[i], trace[i + 1])
  }

  lemma TraceOn(calls: seq<Call>, limit: nat, trace: seq<map<Entry, Item>>, fired: seq<seq<Entry>>, f: seq<Entry>,
      q: map<Entry, Item>)
    requires Traced(calls, limit, trace, fired) && |fired| < |calls|
    requires Performed(calls[|fired|], limit, trace[|fired|], f, q)
    ensures Traced(calls, limit, trace + [q], fired + [f])
  {
    hide Performed;
  }

  /** Every run from creation whose callbacks find room refines a run on the agenda, starting from nothing scheduled.
      The invariant holds at its end, and no schedule on the way lacks a free id. */
  method Run(size: nat, ghost es: set<Entry>, ghost gs: set<GroupLock>, calls: seq<Call>)
    returns (h: TimerHeap, ghost trace: seq<map<Entry, Item>>, ghost fired: seq<seq<Entry>>)
    requires forall e :: e in es ==> e.Idle()
    requires (forall c :: c in calls ==> Allowed(c, es, gs)) && RunRoom(calls, map[], size + 2)
    modifies es, gs
    ensures h.Valid() && h.Headroom() && h.held == {} && h.inFlight == multiset{}
    ensures h.known == es && h.locks == gs
    ensures Traced(calls, DEFAULT_MAX_TIMED_OUT_PER_POLL, trace, fired) && |fired| == |calls|
    ensures trace[0] == map[] && trace[|calls|] == h.Agenda()
  {
    hide TimerHeap.Core, TimerHeap.Balanced, TimerHeap.TrackedBut, Performed, Traced, RunRoom;
    h := Start(size, es, gs);
    trace, fired := [h.Agenda()], [];
    assert Traced(calls, DEFAULT_MAX_TIMED_OUT_PER_POLL, trace, fired) by { NoTrace(calls, h.Agenda()); }
    for i := 0 to |calls|
      invariant h.Valid() && h.held == {} && h.inFlight == multiset{}
      invariant h.known == es && h.locks == gs && h.maxPerPoll == DEFAULT_MAX_TIMED_OUT_PER_POLL
      invariant fresh(h) && fresh(h.heap) && fresh(h.ids)
      invariant |trace| == i + 1 && |fired| == i && trace[0] == map[] && trace[i] == h.Agenda()
      invariant Traced(calls, DEFAULT_MAX_TIMED_OUT_PER_POLL, trace, fired)
      invariant RunRoom(calls[i..], h.Agenda(), h.maxSize)
    {
      assert calls[i] in calls && calls[i..][0] == calls[i] && calls[i..][1..] == calls[i + 1..];
      ghost var f := PerformCall(h, calls[i], calls[i..]);
      TraceOn(calls, DEFAULT_MAX_TIMED_OUT_PER_POLL, trace, fired, f, h.Agenda());
      trace, fired := trace + [h.Agenda()], fired + [f];
    }
  }

  /** What one step of such a run is: an operation entry by entry, or a poll. */
  lemma TracedMeans(calls: seq<Call>, limit: nat, trace: seq<map<Entry, Item>>, fired: seq<seq<Entry>>, i: nat)
    requires Traced(calls, limit, trace, fired) && i < |fired|
    ensures |trace| == |fired| + 1 && |fired| <= |calls|
    ensures match calls[i]
            case Do(a) => Does(a, trace[i], trace[i + 1])
            case DoPoll(now, script, _) => Polled(trace[i], script, now, limit, fired[i], trace[i + 1])
  {
    assert Performed(calls[i], limit, trace[i], fired[i], trace[i + 1]);
    if calls[i].Do? {
      EffectDoes(calls[i].action, trace[i], trace[i + 1]);
    }
  }

  lemma NoTrace(calls: seq<Call>, q: map<Entry, Item>)
    ensures Traced(calls, DEFAULT_MAX_TIMED_OUT_PER_POLL, [q], [])
  {
  }

  method Start(size: nat, ghost es: set<Entry>, ghost gs: set<GroupLock>) returns (h: TimerHeap)
    requires forall e :: e in es ==> e.Idle()
    modifies gs
    ensures fresh(h) && fresh(h.heap) && fresh(h.ids)
    ensures h.Valid() && h.held == {} && h.inFlight == multiset{} && h.Agenda() == map[]
    ensures h.known == es && h.locks == gs && h.maxPerPoll == DEFAULT_MAX_TIMED_OUT_PER_POLL
    ensures h.maxSize == size + 2
  {
    hide TimerHeap.Core, TimerHeap.Balanced, TimerHeap.TrackedBut;
    h := new TimerHeap(size);
    h.Adopt(es);
    AdoptLocks(h, gs);
  }

  ghost method AdoptLocks(h: TimerHeap, gs: set<GroupLock>)
    requires h.Valid() && h.locks == {}
    modifies h`locks, gs`others
    ensures h.Valid() && h.locks == gs
  {
    hide TimerHeap.Core, TimerHeap.Balanced, TimerHeap.TrackedBut;
    var todo := gs;
    while todo != {}
      invariant h.Valid() && todo <= gs && h.locks == gs - todo
    {
      var g :| g in todo;
      h.AdoptLock(g);
      todo := todo - {g};
    }
  }

  method PerformCall(h: TimerHeap, call: Call, ghost calls: seq<Call>) returns (ghost fired: seq<Entry>)
    requires calls != [] && calls[0] == call && RunRoom(calls, h.Agenda(), h.maxSize)
    requires h.maxPerPoll == DEFAULT_MAX_TIMED_OUT_PER_POLL
    requires h.Valid() && h.held == {} && h.inFlight == multiset{} && Allowed(call, h.known, h.locks)
    modifies h`heap, h`ids, h`maxSize, h`freeHead, h`free, h`live, h`entries, h`curSize, h`vals, h`held, h`inFlight
    modifies h.heap, h.ids, h.known, h.locks`refCnt
    ensures h.Valid() && h.held == {} && h.inFlight == multiset{}
    ensures h.heap == old(h.heap) || fresh(h.heap)
    ensures h.ids == old(h.ids) || fresh(h.ids)
    ensures Performed(call, h.maxPerPoll, old(h.Agenda()), fired, h.Agenda())
    ensures RunRoom(calls[1..], h.Agenda(), h.maxSize)
  {
    hide TimerHeap.Core, TimerHeap.Balanced, TimerHeap.TrackedBut, Effect, Polled, PollRoom;
    fired := [];
    match call
    case Do(a) =>
      assert a in [a];
      h.Perform(a);
    case DoPoll(now, script, wantDelay) =>
      RoomWithoutRest(h.Agenda(), script, 0, now, h.maxPerPoll, h.maxSize, calls[1..]);
      var _, _, f := h.Poll(now, script, wantDelay);
      fired := f;
      RoomAfterPoll(old(h.Agenda()), script, fired, now, h.maxPerPoll, h.maxSize, calls[1..], h.Agenda());
  }

  /** When each callback has at most one net schedule, there is room for the run in a heap of any size. */
  lemma OneNetRunsAnywhere(size: nat, calls: seq<Call>)
    requires forall c :: c in calls ==> OneNet(c)
    ensures RunRoom(calls, map[], size + 2)
  {
    OneNetRunHasRoom(calls, map[], size + 2);
  }

  /** With the heap filled up to its limit, the first net schedule of a callback takes the last free id:
      a second one would pop the sentinel and read past the array. */
  method SecondNetScheduleLacksId(h: TimerHeap, e: Entry, delay: TimeVal, now: TimeVal)
    requires h.Valid() && h.held == {} && h.curSize > 0 && h.curSize + 2 == h.maxSize
    requires e in h.known && e !in h.entries && e.hasCb
    modifies h, h.heap, h.ids, h.known, h.locks
    ensures h.Valid() && |h.held| == 1 && h.curSize == old(h.curSize) && h.maxSize == old(h.maxSize)
    ensures !h.Headroom() && h.free == [] && h.freeHead == h.ids.Length
  {
    hide TimerHeap.Core, TimerHeap.Balanced, TimerHeap.Tracked, TimerHeap.TrackedBut;
    assert h.heap.Length > 0 && h.heap[0] != null && h.heap[0] in h.known by {
      h.FirstIsEarliest();
    }
    var _, _, _ := h.FireFirst();
    assert |h.held| == 1;
    var _ := h.ScheduleWGrpLock(e, delay, false, 0, null, now);
    h.NoRoomNoId();
  }

  /** Such a heap is one call away from its creation for one entry. */
  method FullHeap(e1: Entry, e2: Entry, delay: TimeVal, now: TimeVal) returns (h: TimerHeap)
    requires e1.Idle() && e2.Idle() && e1.hasCb && e2.hasCb && e1 != e2
    modifies e1
    ensures fresh(h) && fresh(h.heap) && fresh(h.ids) && h.known == {e1, e2} && h.locks == {}
    ensures h.Valid() && h.held == {} && h.curSize == 1 && h.maxSize == 3 && h.entries == {e1}
  {
    hide TimerHeap.Valid;
    h := new TimerHeap(1);
    h.Adopt({e1, e2});
    var _ := h.ScheduleWGrpLock(e1, delay, false, 0, null, now);
  }

  /** So the ids run out in a heap that was just created. */
  method LacksIdSoon(delay: TimeVal, start: TimeVal, now: TimeVal) returns (h: TimerHeap)
    ensures fresh(h) && h.Valid() && |h.held| == 1 && h.curSize == 1 && h.maxSize == 3
    ensures !h.Headroom() && h.free == [] && h.freeHead == h.ids.Length
  {
    hide TimerHeap.Valid;
    var e1 := new Entry(1, true);
    var e2 := new Entry(2, true);
    h := FullHeap(e1, e2, delay, start);
    SecondNetScheduleLacksId(h, e2, delay, now);
  }
}
