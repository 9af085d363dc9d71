// The event object of src/os_core_unix.c: auto-reset or manual-reset, over a mutex and a condition variable.
// Each critical section is one step.  A thread in em_event_wait is blocked on the condition variable or woken,
// that is on its way to the mutex, and it may be woken for no reason.

module Events {
  datatype State = OFF | SET | PULSED

  /** What the event asks of its condition variable. */
  datatype Wake = Nobody | Signal | Broadcast

  /** The fields of em_event_t. */
  datatype Fields = Fields(autoReset: bool, state: State, threadsWaiting: int, threadsToRelease: int)

  // ---------- The critical sections, on values ----------

  function Create(manualReset: bool, initial: bool): Fields {
    Fields(!manualReset, if initial then SET else OFF, 0, if initial then 1 else 0)
  }

  function OneRelease(e: Fields): Fields {
    if e.autoReset then e.(threadsToRelease := 0, state := OFF)
    else if e.state == SET then e
    else if e.threadsToRelease == 1 then e.(threadsToRelease := 0, state := OFF)
    else e.(threadsToRelease := e.threadsToRelease - 1)
  }

  /** A thread comes to wait: it goes through at once, or counts as waiting. */
  function Arrive(e: Fields): Fields {
    if e.state == OFF then e.(threadsWaiting := e.threadsWaiting + 1) else OneRelease(e)
  }

  /** A woken waiter has the mutex again: it goes through, or waits on. */
  function Recheck(e: Fields): Fields {
    if e.state == OFF then e else OneRelease(e.(threadsWaiting := e.threadsWaiting - 1))
  }

  function Try(e: Fields): Fields {
    if e.state == OFF then e else OneRelease(e)
  }

  function Signalled(e: Fields): Fields {
    e.(threadsToRelease := 1, state := SET)
  }

  function Pulsed(e: Fields): Fields {
    if e.threadsWaiting == 0 then e
    else e.(threadsToRelease := if e.autoReset then 1 else e.threadsWaiting, state := PULSED)
  }

  function Cleared(e: Fields): Fields {
    e.(state := OFF, threadsToRelease := 0)
  }

  function WakeOfSet(e: Fields): Wake {
    if e.autoReset then Signal else Broadcast
  }

  function WakeOfPulse(e: Fields): Wake {
    if e.threadsWaiting == 0 then Nobody else if e.autoReset || e.threadsWaiting == 1 then Signal else Broadcast
  }

  /** A pulse is never pending without waiters enough to consume it. */
  predicate FieldsOk(e: Fields) {
    && e.threadsWaiting >= 0
    && (e.state == OFF ==> e.threadsToRelease == 0) && (e.state == SET ==> e.threadsToRelease == 1)
    && (e.state == PULSED ==> 1 <= e.threadsToRelease <= e.threadsWaiting)
    && (e.autoReset && e.state == PULSED ==> e.threadsToRelease == 1)
  }

  // ---------- The object ----------

  class Event {
    const autoReset: bool
    var state: State
    var threadsWaiting: int
    var threadsToRelease: int

    function Data(): Fields
      reads this
    {
      Fields(autoReset, state, threadsWaiting, threadsToRelease)
    }

    /** em_event_create */
    constructor (manualReset: bool, initial: bool)
      ensures Data() == Create(manualReset, initial) && FieldsOk(Data())
    {
      autoReset := !manualReset;
      threadsWaiting := 0;
      if initial {
        state := SET;
        threadsToRelease := 1;
      } else {
        state := OFF;
        threadsToRelease := 0;
      }
    }

    /** event_on_one_release, whose assertion holds. */
    method OnOneRelease()
      requires state != OFF && (state == PULSED ==> threadsToRelease >= 1)
      modifies this
      ensures Data() == OneRelease(old(Data()))
    {
      if state == SET {
        if autoReset {
          threadsToRelease := 0;
          state := OFF;
        }
      } else {
        if autoReset {
          threadsToRelease := 0;
          state := OFF;
        } else {
          threadsToRelease := threadsToRelease - 1;
          assert threadsToRelease >= 0;
          if threadsToRelease == 0 {
            state := OFF;
          }
        }
      }
    }

    /** em_event_wait up to its return or its first pthread_cond_wait. */
    method WaitBegin() returns (released: bool)
      requires FieldsOk(Data())
      modifies this
      ensures Data() == Arrive(old(Data())) && FieldsOk(Data())
      ensures released <==> old(state) != OFF
    {
      threadsWaiting := threadsWaiting + 1;
      released := state != OFF;
      if released {
        threadsWaiting := threadsWaiting - 1;
        OnOneRelease();
      }
    }

    /** em_event_wait from a return of pthread_cond_wait up to its own return or the next pthread_cond_wait. */
    method WaitResume() returns (released: bool)
      requires FieldsOk(Data()) && threadsWaiting >= 1
      modifies this
      ensures Data() == Recheck(old(Data())) && FieldsOk(Data())
      ensures released <==> old(state) != OFF
    {
      released := state != OFF;
      if released {
        threadsWaiting := threadsWaiting - 1;
        OnOneRelease();
      }
    }

    /** em_event_trywait */
    method TryWait() returns (released: bool)
      requires FieldsOk(Data())
      modifies this
      ensures Data() == Try(old(Data())) && FieldsOk(Data())
      ensures released <==> old(state) != OFF
    {
      released := state != OFF;
      if released {
        OnOneRelease();
      }
    }

    /** em_event_set */
    method Set() returns (wake: Wake)
      requires FieldsOk(Data())
      modifies this
      ensures Data() == Signalled(old(Data())) && FieldsOk(Data()) && wake == WakeOfSet(old(Data()))
    {
      threadsToRelease := 1;
      state := SET;
      wake := if autoReset then Signal else Broadcast;
    }

    /** em_event_pulse */
    method Pulse() returns (wake: Wake)
      requires FieldsOk(Data())
      modifies this
      ensures Data() == Pulsed(old(Data())) && FieldsOk(Data()) && wake == WakeOfPulse(old(Data()))
    {
      wake := Nobody;
      if threadsWaiting != 0 {
        threadsToRelease := if autoReset then 1 else threadsWaiting;
        state := PULSED;
        wake := if threadsToRelease == 1 then Signal else Broadcast;
      }
    }

    /** em_event_reset */
    method Reset()
      requires FieldsOk(Data())
      modifies this
      ensures Data() == Cleared(old(Data())) && FieldsOk(Data())
    {
      state := OFF;
      threadsToRelease := 0;
    }
  }

  // ---------- Threads around an event ----------

  datatype System = System(ev: Fields, blocked: set<nat>, woken: set<nat>)

  /** A step of a thread or of the scheduler.  When one thread is signalled, pick says which. */
  datatype Step =
    | Begin(t: nat)
    | Resume(t: nat)
    | Spurious(t: nat)
    | Poll
    | Raise(pick: nat)
    | Flash(pick: nat)
    | Clear

  predicate Enabled(s: System, a: Step) {
    match a
    case Begin(t) => t !in s.blocked && t !in s.woken
    case Resume(t) => t in s.woken
    case Spurious(t) => t in s.blocked
    case Raise(pick) => WakeOfSet(s.ev) == Signal && s.blocked != {} ==> pick in s.blocked
    case Flash(pick) => WakeOfPulse(s.ev) == Signal && s.blocked != {} ==> pick in s.blocked
    case _ => true
  }

  function WakeUp(s: System, w: Wake, pick: nat): System {
    match w
    case Nobody => s
    case Broadcast => s.(blocked := {}, woken := s.woken + s.blocked)
    case Signal => if pick in s.blocked then s.(blocked := s.blocked - {pick}, woken := s.woken + {pick}) else s
  }

  function Next(s: System, a: Step): System {
    match a
    case Begin(t) => s.(ev := Arrive(s.ev), blocked := if s.ev.state == OFF then s.blocked + {t} else s.blocked)
    case Resume(t) =>
      System(Recheck(s.ev), if s.ev.state == OFF then s.blocked + {t} else s.blocked, s.woken - {t})
    case Spurious(t) => s.(blocked := s.blocked - {t}, woken := s.woken + {t})
    case Poll => s.(ev := Try(s.ev))
    case Raise(pick) => WakeUp(s.(ev := Signalled(s.ev)), WakeOfSet(s.ev), pick)
    case Flash(pick) => WakeUp(s.(ev := Pulsed(s.ev)), WakeOfPulse(s.ev), pick)
    case Clear => s.(ev := Cleared(s.ev))
  }

  /** Whether the step lets a thread through. */
  predicate Admits(s: System, a: Step) {
    s.ev.state != OFF && (a.Begin? || a.Resume? || a.Poll?)
  }

  /** No wake-up is lost: who still sleeps while the event is signalled can count on a thread that is awake. */
  ghost predicate Inv(s: System) {
    && FieldsOk(s.ev)
    && s.blocked !! s.woken
    && s.ev.threadsWaiting == |s.blocked| + |s.woken|
    && (s.ev.state != OFF && !s.ev.autoReset ==> s.blocked == {})
    && (s.ev.state != OFF && s.ev.autoReset && s.ev.threadsWaiting > 0 ==> s.woken != {})
  }

  lemma StepKeeps(s: System, a: Step)
    requires Inv(s) && Enabled(s, a)
    ensures Inv(Next(s, a)) && Next(s, a).ev.autoReset == s.ev.autoReset
  {
    if a.Raise? || a.Flash? {
      SignalKeeps(s, a);
    }
  }

  lemma SignalKeeps(s: System, a: Step)
    requires Inv(s) && Enabled(s, a) && (a.Raise? || a.Flash?)
    ensures Inv(Next(s, a))
  {
  }

  // ---------- Runs ----------

  predicate Runs(s: System, run: seq<Step>)
    decreases |run|
  {
    run == [] || (Enabled(s, run[0]) && Runs(Next(s, run[0]), run[1..]))
  }

  function Final(s: System, run: seq<Step>): System
    decreases |run|
  {
    if run == [] then s else Final(Next(s, run[0]), run[1..])
  }

  function Initial(manualReset: bool, initial: bool): System {
    System(Create(manualReset, initial), {}, {})
  }

  /** No wake-up is lost in any state that any run reaches: while the event is signalled, a manual-reset event has
      nobody asleep, and an auto-reset event with waiters has one that is awake and that will be let through. */
  lemma {:induction false} RunKeeps(s: System, run: seq<Step>)
    requires Inv(s) && Runs(s, run)
    ensures var n := Final(s, run);
            && Inv(n) && n.ev.autoReset == s.ev.autoReset
            && (n.ev.state != OFF && n.ev.threadsWaiting > 0 ==>
                  exists t :: Enabled(n, Resume(t)) && Admits(n, Resume(t)))
            && (n.ev.state != OFF && !n.ev.autoReset ==> n.blocked == {})
    decreases |run|
  {
    if run != [] {
      StepKeeps(s, run[0]);
      RunKeeps(Next(s, run[0]), run[1..]);
    } else if s.ev.state != OFF && s.ev.threadsWaiting > 0 {
      assert s.woken != {};
      var t :| t in s.woken;
      assert Enabled(s, Resume(t)) && Admits(s, Resume(t));
    }
  }

  lemma ReachableKeeps(manualReset: bool, initial: bool, run: seq<Step>)
    requires Runs(Initial(manualReset, initial), run)
    ensures Inv(Final(Initial(manualReset, initial), run))
  {
    RunKeeps(Initial(manualReset, initial), run);
  }

  function One(b: bool): nat {
    if b then 1 else 0
  }

  /** How many threads the run lets through. */
  function Admissions(s: System, run: seq<Step>): nat
    decreases |run|
  {
    if run == [] then 0 else One(Admits(s, run[0])) + Admissions(Next(s, run[0]), run[1..])
  }

  /** Whether the step signals the event: a set, or a pulse that finds a waiter. */
  predicate Signals(s: System, a: Step) {
    a.Raise? || (a.Flash? && s.ev.threadsWaiting != 0)
  }

  function SignalCount(s: System, run: seq<Step>): nat
    decreases |run|
  {
    if run == [] then 0 else One(Signals(s, run[0])) + SignalCount(Next(s, run[0]), run[1..])
  }

  /** The signals that an auto-reset event loses, by a reset or by another signal on top. */
  function LostCount(s: System, run: seq<Step>): nat
    decreases |run|
  {
    if run == [] then 0
    else One(s.ev.state != OFF && (Signals(s, run[0]) || run[0].Clear?)) + LostCount(Next(s, run[0]), run[1..])
  }

  /** An auto-reset event lets through exactly one thread for each signal that is neither lost nor still there. */
  lemma {:induction false} AutoConservation(s: System, run: seq<Step>)
    requires Inv(s) && s.ev.autoReset && Runs(s, run)
    ensures Admissions(s, run) + One(Final(s, run).ev.state != OFF) + LostCount(s, run)
            == One(s.ev.state != OFF) + SignalCount(s, run)
    decreases |run|
  {
    if run != [] {
      StepKeeps(s, run[0]);
      AutoConservation(Next(s, run[0]), run[1..]);
    }
  }

  /** From creation on, the initial state counts as one signal. */
  lemma AutoFromCreation(initial: bool, run: seq<Step>)
    requires Runs(Initial(false, initial), run)
    ensures var s := Initial(false, initial);
            Admissions(s, run) + One(Final(s, run).ev.state != OFF) + LostCount(s, run)
            == One(initial) + SignalCount(s, run)
  {
    AutoConservation(Initial(false, initial), run);
  }

  /** Whom a signal wakes: all who sleep on a manual-reset event, and just one who sleeps on an auto-reset event. */
  lemma SignalWakes(s: System, a: Step)
    requires Inv(s) && Enabled(s, a) && (a.Raise? || (a.Flash? && s.ev.threadsWaiting > 0))
    ensures var n := Next(s, a);
            && n.ev.state != OFF && n.blocked + n.woken == s.blocked + s.woken
            && n.blocked == if s.ev.autoReset then s.blocked - {a.pick} else {}
    ensures s.ev.autoReset && s.blocked != {} ==> a.pick in s.blocked
  {
    if a.Flash? && !s.ev.autoReset && s.ev.threadsWaiting == 1 && s.blocked != {} {
      OnlySleeper(s, a.pick);
    }
    WakeUpMeans(s, if a.Raise? then WakeOfSet(s.ev) else WakeOfPulse(s.ev), a.pick);
  }

  lemma OnlySleeper(s: System, pick: nat)
    requires Inv(s) && s.ev.threadsWaiting == 1 && pick in s.blocked
    ensures s.blocked == {pick}
  {
    assert |s.blocked - {pick}| == |s.blocked| - 1;
  }

  lemma WakeUpMeans(s: System, w: Wake, pick: nat)
    requires w != Nobody
    ensures var n := WakeUp(s, w, pick);
            && n.blocked + n.woken == s.blocked + s.woken
            && n.blocked == if w == Broadcast then {} else s.blocked - {pick}
  {
  }

  // ---------- Open and closed ----------

  /** How many times the run has a thread come, or come back, to see whether it goes through. */
  function Tries(run: seq<Step>): nat {
    if run == [] then 0 else One(run[0].Begin? || run[0].Resume? || run[0].Poll?) + Tries(run[1..])
  }

  /** There is no reset in the run, and no pulse that finds a waiter. */
  predicate LeftOpen(s: System, run: seq<Step>)
    decreases |run|
  {
    run == [] || (!run[0].Clear? && (run[0].Flash? ==> s.ev.threadsWaiting == 0) && LeftOpen(Next(s, run[0]), run[1..]))
  }

  lemma {:induction false} StaysOpen(s: System, run: seq<Step>)
    requires Inv(s) && !s.ev.autoReset && s.ev.state == SET && Runs(s, run) && LeftOpen(s, run)
    ensures Admissions(s, run) == Tries(run) && Final(s, run).blocked == {}
    decreases |run|
  {
    hide Inv, Enabled, Admits, Next;
    if run != [] {
      StepKeeps(s, run[0]);
      StepStaysOpen(s, run[0]);
      StaysOpen(Next(s, run[0]), run[1..]);
    } else {
      RunKeeps(s, run);
    }
  }

  lemma StepStaysOpen(s: System, a: Step)
    requires Inv(s) && !s.ev.autoReset && s.ev.state == SET && Enabled(s, a)
    requires !a.Clear? && (a.Flash? ==> s.ev.threadsWaiting == 0)
    ensures Next(s, a).ev.state == SET && (Admits(s, a) <==> a.Begin? || a.Resume? || a.Poll?)
  {
  }

  /** A manual-reset event that was set lets everybody through, and nobody sleeps, until a reset or a pulse. */
  lemma SetOpens(s: System, pick: nat, run: seq<Step>)
    requires Inv(s) && !s.ev.autoReset
    requires var n := Next(s, Raise(pick)); Runs(n, run) && LeftOpen(n, run)
    ensures var n := Next(s, Raise(pick)); Admissions(n, run) == Tries(run) && Final(n, run).blocked == {}
  {
    StepKeeps(s, Raise(pick));
    StaysOpen(Next(s, Raise(pick)), run);
  }

  /** So does one that is created set. */
  lemma CreatedOpen(run: seq<Step>)
    requires var s := Initial(true, true); Runs(s, run) && LeftOpen(s, run)
    ensures var s := Initial(true, true); Admissions(s, run) == Tries(run) && Final(s, run).blocked == {}
  {
    StaysOpen(Initial(true, true), run);
  }

  /** The threads that come to wait. */
  function Comers(run: seq<Step>): set<nat> {
    if run == [] then {} else (if run[0].Begin? then {run[0].t} else {}) + Comers(run[1..])
  }

  lemma {:induction false} StaysClosed(s: System, run: seq<Step>)
    requires Inv(s) && s.ev.state == OFF && Runs(s, run) && SignalCount(s, run) == 0
    ensures Admissions(s, run) == 0
    ensures Final(s, run).blocked + Final(s, run).woken == s.blocked + s.woken + Comers(run)
    decreases |run|
  {
    hide Inv, Enabled, Signals, Admits, Next;
    if run != [] {
      StepKeeps(s, run[0]);
      StepStaysClosed(s, run[0]);
      StaysClosed(Next(s, run[0]), run[1..]);
    }
  }

  lemma StepStaysClosed(s: System, a: Step)
    requires s.ev.state == OFF && Enabled(s, a) && !Signals(s, a)
    ensures !Admits(s, a) && Next(s, a).ev.state == OFF
    ensures Next(s, a).blocked + Next(s, a).woken == s.blocked + s.woken + if a.Begin? then {a.t} else {}
  {
    var n := Next(s, a);
    match a
    case Begin(t) => assert n.blocked + n.woken == s.blocked + s.woken + {t};
    case Resume(t) => MoveKeeps(s.blocked, s.woken, t);
    case Spurious(t) => MoveKeeps(s.woken, s.blocked, t);
    case _ =>
  }

  lemma MoveKeeps(a: set<nat>, b: set<nat>, t: nat)
    requires t in b
    ensures (a + {t}) + (b - {t}) == a + b == (b - {t}) + (a + {t})
  {
  }

  /** After a reset, an event of either kind lets nobody through until the next signal: whoever waits or comes to wait
      goes on waiting. */
  lemma ResetCloses(s: System, run: seq<Step>)
    requires Inv(s)
    requires var n := Next(s, Clear); Runs(n, run) && SignalCount(n, run) == 0
    ensures var n := Next(s, Clear);
            && Admissions(n, run) == 0
            && Final(n, run).blocked + Final(n, run).woken == s.blocked + s.woken + Comers(run)
  {
    StepKeeps(s, Clear);
    StaysClosed(Next(s, Clear), run);
  }

  /** So does an event of either kind that is created reset. */
  lemma CreatedClosed(manualReset: bool, run: seq<Step>)
    requires var s := Initial(manualReset, false); Runs(s, run) && SignalCount(s, run) == 0
    ensures var s := Initial(manualReset, false);
            Admissions(s, run) == 0 && Final(s, run).blocked + Final(s, run).woken == Comers(run)
  {
    StaysClosed(Initial(manualReset, false), run);
  }

  // ---------- Pulses ----------

  /** The permits of a pulse that are left. */
  function Pending(s: System): int {
    if s.ev.state == PULSED then s.ev.threadsToRelease else 0
  }

  /** The permits of a pulse that resets take back. */
  function Revoked(s: System, run: seq<Step>): int
    decreases |run|
  {
    if run == [] then 0 else (if run[0].Clear? then Pending(s) else 0) + Revoked(Next(s, run[0]), run[1..])
  }

  predicate NoSignal(run: seq<Step>) {
    forall a :: a in run ==> !a.Raise? && !a.Flash?
  }

  /** From a pulse on, and until the next signal, a manual-reset event lets through one thread for each permit that
      is neither left nor taken back. */
  lemma {:induction false} PulseConservation(s: System, run: seq<Step>)
    requires Inv(s) && !s.ev.autoReset && s.ev.state != SET && Runs(s, run) && NoSignal(run)
    ensures Admissions(s, run) + Pending(Final(s, run)) + Revoked(s, run) == Pending(s)
    ensures Final(s, run).ev.state != SET
    decreases |run|
  {
    if run != [] {
      StepKeeps(s, run[0]);
      assert NoSignal(run[1..]);
      assert run[0] in run;
      PulseConservation(Next(s, run[0]), run[1..]);
    }
  }

  /** Those of the threads w that the run has not yet let through on return from their wait. */
  function Rest(s: System, run: seq<Step>, w: set<nat>): set<nat>
    decreases |run|
  {
    if run == [] then w
    else Rest(Next(s, run[0]), run[1..], if run[0].Resume? && Admits(s, run[0]) then w - {run[0].t} else w)
  }

  /** How many others the run lets through. */
  function Strangers(s: System, run: seq<Step>, w: set<nat>): nat
    decreases |run|
  {
    if run == [] then 0
    else
      var own := run[0].Resume? && run[0].t in w;
      var w' := if own && Admits(s, run[0]) then w - {run[0].t} else w;
      One(Admits(s, run[0]) && !own) + Strangers(Next(s, run[0]), run[1..], w')
  }

  lemma {:induction false} RestCount(s: System, run: seq<Step>, w: set<nat>)
    ensures Rest(s, run, w) <= w
    ensures |Rest(s, run, w)| + Admissions(s, run) == |w| + Strangers(s, run, w)
    decreases |run|
  {
    if run != [] {
      var own := run[0].Resume? && Admits(s, run[0]);
      var w' := if own then w - {run[0].t} else w;
      if own && run[0].t in w {
        assert w == w' + {run[0].t};
      } else if own {
        assert w' == w;
      }
      RestCount(Next(s, run[0]), run[1..], w');
    }
  }

  /** The permits of a pulse that are left, taken back or used by others are missing for as many of its waiters. */
  lemma PulseBalance(s: System, run: seq<Step>, w: set<nat>)
    requires Inv(s) && !s.ev.autoReset && s.ev.state != SET && Runs(s, run) && NoSignal(run)
    ensures |Rest(s, run, w)| - |w| == Pending(Final(s, run)) + Revoked(s, run) + Strangers(s, run, w) - Pending(s)
    ensures Pending(Final(s, run)) >= 0 && Revoked(s, run) >= 0
  {
    PulseConservation(s, run);
    RestCount(s, run, w);
    RunKeeps(s, run);
    RevokedIsNat(s, run);
  }

  /** The run starts with n returns of woken waiters. */
  predicate StartsWithReturns(run: seq<Step>, n: nat) {
    n <= |run| && forall i :: 0 <= i < n ==> run[i].Resume?
  }

  /** The pulse is pending for exactly the threads w, all of them on their way to the mutex. */
  ghost predicate Owed(s: System, w: set<nat>) {
    Inv(s) && !s.ev.autoReset && s.ev.state == PULSED && s.woken == w && s.ev.threadsToRelease == |w|
  }

  lemma {:induction false} OwedReleasesAllIff(s: System, run: seq<Step>, w: set<nat>)
    requires Owed(s, w) && Runs(s, run) && NoSignal(run)
    ensures Rest(s, run, w) == {} <==> StartsWithReturns(run, |w|)
    decreases |run|
  {
    if run != [] {
      assert run[0] in run && NoSignal(run[1..]);
      StepKeeps(s, run[0]);
      if run[0].Resume? {
        OwedAfterReturn(s, run, w);
      } else {
        assert Pending(Next(s, run[0])) < |w|;
        PulseBalance(Next(s, run[0]), run[1..], w);
        assert |Rest(s, run, w)| > 0;
      }
    }
  }

  lemma {:induction false} OwedAfterReturn(s: System, run: seq<Step>, w: set<nat>)
    requires Owed(s, w) && Runs(s, run) && NoSignal(run) && run != [] && run[0].Resume?
    ensures Rest(s, run, w) == {} <==> StartsWithReturns(run, |w|)
    decreases |run|, 0
  {
    var n, w' := Next(s, run[0]), w - {run[0].t};
    assert w == w' + {run[0].t};
    StepKeeps(s, run[0]);
    assert NoSignal(run[1..]);
    if w' == {} {
      RestCount(n, run[1..], w');
    } else {
      OwedReleasesAllIff(n, run[1..], w');
      assert forall i :: 0 < i < |run| ==> run[i] == run[1..][i - 1];
    }
  }

  /** A pulse of a manual-reset event lets through the number of threads that were waiting, but not always those
      threads: all of them go through exactly if the next critical sections, as many as there were waiters, are all
      returns of woken waiters. */
  lemma PulseReleasesAllIff(s: System, pick: nat, run: seq<Step>)
    requires Inv(s) && !s.ev.autoReset && s.ev.threadsWaiting > 0
    requires Enabled(s, Flash(pick)) && Runs(Next(s, Flash(pick)), run) && NoSignal(run)
    ensures var w := s.blocked + s.woken;
            && |w| == s.ev.threadsWaiting
            && (Rest(Next(s, Flash(pick)), run, w) == {} <==> StartsWithReturns(run, |w|))
  {
    StepKeeps(s, Flash(pick));
    PulseOwes(s, pick);
    OwedReleasesAllIff(Next(s, Flash(pick)), run, s.blocked + s.woken);
  }

  lemma PulseOwes(s: System, pick: nat)
    requires Inv(s) && !s.ev.autoReset && s.ev.threadsWaiting > 0 && Enabled(s, Flash(pick))
    ensures Owed(Next(s, Flash(pick)), s.blocked + s.woken) && |s.blocked + s.woken| == s.ev.threadsWaiting
  {
    var n := Next(s, Flash(pick));
    StepKeeps(s, Flash(pick));
    assert n.blocked == {};
    assert n.woken == s.blocked + s.woken;
  }

  /** However a run goes on without a further signal, it lets through at most this many threads. */
  ghost predicate Bounded(s: System, bound: nat) {
    forall run :: Runs(s, run) && NoSignal(run) ==> Admissions(s, run) <= bound
  }

  /** The number of threads that go through after a pulse is bounded, by the number of waiters, exactly if the event was
      not set or somebody waited. */
  lemma PulseBoundIff(s: System, pick: nat)
    requires Inv(s) && !s.ev.autoReset && Enabled(s, Flash(pick))
    ensures (exists bound: nat :: Bounded(Next(s, Flash(pick)), bound))
            <==> s.ev.state != SET || s.ev.threadsWaiting > 0
    ensures s.ev.state != SET || s.ev.threadsWaiting > 0 ==> Bounded(Next(s, Flash(pick)), s.ev.threadsWaiting)
  {
    var n := Next(s, Flash(pick));
    StepKeeps(s, Flash(pick));
    if s.ev.state != SET || s.ev.threadsWaiting > 0 {
      forall run | Runs(n, run) && NoSignal(run)
        ensures Admissions(n, run) <= s.ev.threadsWaiting
      {
        PulseConservation(n, run);
        RevokedIsNat(n, run);
        RunKeeps(n, run);
      }
      assert Bounded(n, s.ev.threadsWaiting);
    } else {
      forall bound: nat
        ensures !Bounded(n, bound)
      {
        IdlePulseHasNoBound(s, pick, bound + 1);
      }
    }
  }

  lemma {:induction false} RevokedIsNat(s: System, run: seq<Step>)
    requires Inv(s) && Runs(s, run)
    ensures Revoked(s, run) >= 0
    decreases |run|
  {
    if run != [] {
      StepKeeps(s, run[0]);
      RevokedIsNat(Next(s, run[0]), run[1..]);
    }
  }

  /** A thread that only tries can take the permit of a pulse from the one that waits for it. */
  lemma PulseCanBeStolen()
    ensures var s := Final(Initial(true, false), [Begin(1)]);
            var n := Next(s, Flash(1));
            var run := [Poll, Resume(1)];
            && Runs(Initial(true, false), [Begin(1)]) && Enabled(s, Flash(1)) && Runs(n, run)
            && Rest(n, run, s.blocked + s.woken) == {1}
            && Final(n, run).blocked == {1} && Final(n, run).ev.state == OFF
  {
  }

  function Polls(k: nat): seq<Step> {
    if k == 0 then [] else [Poll] + Polls(k - 1)
  }

  /** A pulse that finds no waiter leaves the event as it was, and a manual-reset event that was set stays so: it
      then lets any number of threads through. */
  lemma {:induction false} IdlePulseHasNoBound(s: System, pick: nat, k: nat)
    requires Inv(s) && !s.ev.autoReset && s.ev.state == SET && s.ev.threadsWaiting == 0
    ensures Next(s, Flash(pick)) == s
    ensures Runs(s, Polls(k)) && NoSignal(Polls(k)) && Admissions(s, Polls(k)) == k
  {
    if k > 0 {
      assert Next(s, Poll) == s && Polls(k)[1..] == Polls(k - 1);
      IdlePulseHasNoBound(s, pick, k - 1);
    }
  }
}
