// Structured exceptions: src/except.c and the EM_TRY / EM_CATCH / EM_CATCH_ANY / EM_END / EM_THROW macros of
// include/em/except.h.  Exec is the ordinary meaning of a statement with exceptions.  Expand replaces the macros by
// the code they stand for, and Step runs that code on a machine with an explicit handler stack, where setjmp saves
// the current continuation in a record and longjmp resumes it.  Simulate shows that the two agree.

module Exceptions {
  import opened Options

  /** The record and the code variable that EM_USE_EXCEPTION number r declares, in the activation of its function at
      this call depth. */
  datatype Rec = Rec(r: nat, depth: nat)

  /** The program's own variables, and em_x_code__ of each record. */
  datatype State = State(vars: map<string, int>, codes: map<Rec, int>)

  /** EM_GET_EXCEPTION */
  function Code(st: State, r: Rec): int {
    if r in st.codes then st.codes[r] else 0
  }

  function SetCode(st: State, r: Rec, code: int): State {
    st.(codes := st.codes[r := code])
  }

  /** What setjmp returns after longjmp with this value: never 0. */
  function JumpValue(id: int): int {
    if id == 0 then 1 else id
  }

  // The expressions and actions of a program may read the state and, to get at its own records, the call depth.

  datatype Catch = CatchAny | CatchId(id: (State, nat) -> int)

  predicate Matches(c: Catch, st: State, r: Rec) {
    c.CatchAny? || Code(st, r) == c.id(st, r.depth)
  }

  // ---------- Statements and their meaning ----------

  datatype Stmt =
    | Skip
    | Do(f: (State, nat) -> map<string, int>)
    | Seq(s1: Stmt, s2: Stmt)
    | If(c: (State, nat) -> bool, thn: Stmt, els: Stmt)
    | While(c: (State, nat) -> bool, body: Stmt)
    | Call(name: string)
    | Return
    | Throw(e: (State, nat) -> int)
    | Try(r: nat, body: Stmt, catch: Catch, handler: Stmt)

  /** The body of each function. */
  type Program = string -> Stmt

  /** Where a statement stands: in an activation of a function of the program, at some call depth. */
  datatype Env = Env(prog: Program, depth: nat) {
    function Callee(): Env {
      this.(depth := depth + 1)
    }

    function Own(r: nat): Rec {
      Rec(r, depth)
    }
  }

  datatype Outcome = Normal | Returned | Thrown(id: int) | Timeout

  /** The ordinary semantics; fuel bounds the nesting of calls and loop iterations that are looked at. */
  function Exec(v: Env, s: Stmt, st: State, fuel: nat): (State, Outcome)
    decreases fuel, s
  {
    match s
    case Skip => (st, Normal)
    case Do(f) => (st.(vars := f(st, v.depth)), Normal)
    case Seq(s1, s2) =>
      var (st1, o1) := Exec(v, s1, st, fuel);
      if o1 == Normal then Exec(v, s2, st1, fuel) else (st1, o1)
    case If(c, thn, els) => if c(st, v.depth) then Exec(v, thn, st, fuel) else Exec(v, els, st, fuel)
    case While(c, body) =>
      if !c(st, v.depth) then (st, Normal)
      else if fuel == 0 then (st, Timeout)
      else
        var (st1, o1) := Exec(v, body, st, fuel - 1);
        if o1 == Normal then Exec(v, s, st1, fuel - 1) else (st1, o1)
    case Call(name) =>
      if fuel == 0 then (st, Timeout)
      else
        var (st1, o1) := Exec(v.Callee(), v.prog(name), st, fuel - 1);
        (st1, if o1 == Returned then Normal else o1)
    case Return => (st, Returned)
    case Throw(e) => (st, Thrown(e(st, v.depth)))
    case Try(r, body, catch, handler) =>
      var (st1, o1) := Exec(v, body, SetCode(st, v.Own(r), 0), fuel);
      if o1.Thrown? then
        var st2 := SetCode(st1, v.Own(r), JumpValue(o1.id));
        if Matches(catch, st2, v.Own(r)) then Exec(v, handler, st2, fuel) else (st2, Normal)
      else (st1, o1)
  }

  /** The rules for users of the macros: a try block is not left by return, and its record is not in use in the same
      activation already. */
  predicate WellUsed(s: Stmt, live: set<nat>, inTry: bool) {
    match s
    case Skip => true
    case Do(_) => true
    case Seq(s1, s2) => WellUsed(s1, live, inTry) && WellUsed(s2, live, inTry)
    case If(_, thn, els) => WellUsed(thn, live, inTry) && WellUsed(els, live, inTry)
    case While(_, body) => WellUsed(body, live, inTry)
    case Call(_) => true
    case Return => !inTry
    case Throw(_) => true
    case Try(r, body, _, handler) => r !in live && WellUsed(body, live + {r}, true) && WellUsed(handler, live, inTry)
  }

  ghost predicate AllWellUsed(p: Program) {
    forall f: string :: WellUsed(p(f), {}, false)
  }

  // ---------- The expansion of the macros ----------

  datatype Instr =
    | INop
    | IDo(f: State -> map<string, int>)
    | ISeq(i1: Instr, i2: Instr)
    | IIf(c: State -> bool, thn: Instr, els: Instr)
    | IWhile(c: State -> bool, body: Instr)
    | ICall(name: string, depth: nat)
    | IReturn
    | IThrow(e: State -> int)   // em_throw_exception_
    | IPush(r: Rec)             // em_push_exception_handler_
    | ISetjmp(r: Rec)           // em_x_code__ = em_setjmp(em_x_except__.state)
    | IPop(r: Rec)              // em_pop_exception_handler_

  /** The code of a statement in an activation at this depth. */
  function Expand(depth: nat, s: Stmt): Instr {
    match s
    case Skip => INop
    case Do(f) => IDo((st: State) => f(st, depth))
    case Seq(s1, s2) => ISeq(Expand(depth, s1), Expand(depth, s2))
    case If(c, thn, els) => IIf((st: State) => c(st, depth), Expand(depth, thn), Expand(depth, els))
    case While(c, body) => IWhile((st: State) => c(st, depth), Expand(depth, body))
    case Call(name) => ICall(name, depth + 1)
    case Return => IReturn
    case Throw(e) => IThrow((st: State) => e(st, depth))
    case Try(r, body, catch, handler) =>
      var x := Rec(r, depth);
      ISeq(IPush(x), ISeq(ISetjmp(x), ISeq(Dispatch(x, Expand(depth, body), catch, Expand(depth, handler)), IPop(x))))
  }

  /** The cascade that starts at EM_TRY's test of the code. */
  function Dispatch(r: Rec, body: Instr, catch: Catch, handler: Instr): Instr {
    IIf((st: State) => Code(st, r) == 0, body, IIf((st: State) => Matches(catch, st, r), handler, INop))
  }

  // ---------- The machine ----------

  /** What is left to run: instructions, and the end of each function that is active. */
  datatype Kont = Stop | Then(i: Instr, k: Kont) | Frame(k: Kont)

  function Unwind(k: Kont): Kont {
    match k
    case Stop => Stop
    case Then(_, k') => Unwind(k')
    case Frame(k') => k'
  }

  /** The thread's handler pointer, and prev and state of each record. */
  datatype Handlers = Handlers(top: Option<Rec>, prev: map<Rec, Option<Rec>>, jmp: map<Rec, Kont>)

  datatype Config =
    | Running(k: Kont, st: State, hs: Handlers)
    | Crashed(id: int, st: State)   // no handler, or one without a saved state

  function Push(hs: Handlers, r: Rec): Handlers {
    hs.(top := Some(r), prev := hs.prev[r := hs.top])
  }

  function Pop(hs: Handlers, r: Rec): Handlers {
    if hs.top == Some(r) && r in hs.prev then hs.(top := hs.prev[r]) else hs
  }

  function ThrowTo(id: int, st: State, hs: Handlers): Config {
    match hs.top
    case None => Crashed(id, st)
    case Some(h) =>
      if h in hs.jmp then Running(hs.jmp[h], SetCode(st, h, JumpValue(id)), Pop(hs, h)) else Crashed(id, st)
  }

  function Step(p: Program, c: Config): Config {
    match c
    case Crashed(_, _) => c
    case Running(Stop, _, _) => c
    case Running(Frame(k), st, hs) => Running(k, st, hs)
    case Running(Then(i, k), st, hs) =>
      match i
      case INop => Running(k, st, hs)
      case IDo(f) => Running(k, st.(vars := f(st)), hs)
      case ISeq(i1, i2) => Running(Then(i1, Then(i2, k)), st, hs)
      case IIf(cond, thn, els) => Running(Then(if cond(st) then thn else els, k), st, hs)
      case IWhile(cond, body) => Running(if cond(st) then Then(body, Then(i, k)) else k, st, hs)
      case ICall(name, depth) => Running(Then(Expand(depth, p(name)), Frame(k)), st, hs)
      case IReturn => Running(Unwind(k), st, hs)
      case IThrow(e) => ThrowTo(e(st), st, hs)
      case IPush(r) => Running(k, st, Push(hs, r))
      case ISetjmp(r) => Running(k, SetCode(st, r, 0), hs.(jmp := hs.jmp[r := k]))
      case IPop(r) => Running(k, st, Pop(hs, r))
  }

  function Steps(p: Program, n: nat, c: Config): Config {
    if n == 0 then c else Steps(p, n - 1, Step(p, c))
  }

  lemma {:induction false} StepsAdd(p: Program, m: nat, n: nat, c: Config)
    ensures Steps(p, m + n, c) == Steps(p, n, Steps(p, m, c))
    decreases m
  {
    if m > 0 {
      StepsAdd(p, m - 1, n, Step(p, c));
    }
  }

  // ---------- The handler stack ----------

  /** From top, prev links exactly the records in live and then ends. */
  ghost predicate Linked(top: Option<Rec>, prev: map<Rec, Option<Rec>>, live: seq<Rec>)
    decreases |live|
  {
    if live == [] then top == None
    else top == Some(live[0]) && live[0] in prev && Linked(prev[live[0]], prev, live[1..])
  }

  ghost predicate Stack(hs: Handlers, live: seq<Rec>) {
    && Linked(hs.top, hs.prev, live)
    && (forall i, j :: 0 <= i < j < |live| ==> live[i] != live[j])
    && (forall r :: r in live ==> r in hs.jmp)
  }

  /** The two handler stacks are the same: same records, same links, same saved states. */
  ghost predicate SameStack(hs: Handlers, hs': Handlers, live: seq<Rec>) {
    && hs'.top == hs.top
    && (forall r :: r in live ==> r in hs.prev && r in hs'.prev && hs'.prev[r] == hs.prev[r])
    && (forall r :: r in live ==> r in hs.jmp && r in hs'.jmp && hs'.jmp[r] == hs.jmp[r])
  }

  /** c is where the machine should be after a statement with this outcome, when it started with k left to run. */
  ghost predicate Agrees(c: Config, st: State, o: Outcome, live: seq<Rec>, k: Kont, hs: Handlers)
    requires Stack(hs, live)
  {
    match o
    case Normal => c.Running? && c.k == k && c.st == st && SameStack(hs, c.hs, live)
    case Returned => c.Running? && c.k == Unwind(k) && c.st == st && SameStack(hs, c.hs, live)
    case Thrown(id) =>
      if live == [] then c == Crashed(id, st)
      else
        && c.Running? && c.k == hs.jmp[live[0]] && c.st == SetCode(st, live[0], JumpValue(id))
        && SameStack(Pop(hs, live[0]), c.hs, live[1..])
    case Timeout => true
  }

  /** The records on the stack are of this activation, under the numbers in names, or of its callers. */
  ghost predicate Open(v: Env, live: seq<Rec>, names: set<nat>) {
    forall x :: x in live ==> x.depth <= v.depth && (x.depth == v.depth ==> x.r in names)
  }

  lemma {:induction false} LinkedSame(top: Option<Rec>, prev: map<Rec, Option<Rec>>, prev': map<Rec, Option<Rec>>,
      live: seq<Rec>)
    requires Linked(top, prev, live)
    requires forall r :: r in live ==> r in prev && r in prev' && prev'[r] == prev[r]
    ensures Linked(top, prev', live)
    decreases |live|
  {
    if live != [] {
      LinkedSame(prev[live[0]], prev, prev', live[1..]);
    }
  }

  lemma {:induction false} LinkedIn(top: Option<Rec>, prev: map<Rec, Option<Rec>>, live: seq<Rec>)
    requires Linked(top, prev, live)
    ensures forall r :: r in live ==> r in prev
    decreases |live|
  {
    if live != [] {
      LinkedIn(prev[live[0]], prev, live[1..]);
      assert live == [live[0]] + live[1..];
    }
  }

  lemma SameStackIsStack(hs: Handlers, hs': Handlers, live: seq<Rec>)
    requires Stack(hs, live) && SameStack(hs, hs', live)
    ensures Stack(hs', live)
  {
    LinkedSame(hs.top, hs.prev, hs'.prev, live);
  }

  lemma AgreesVia(c: Config, st: State, o: Outcome, live: seq<Rec>, k: Kont, hs: Handlers, hs': Handlers)
    requires Stack(hs, live) && SameStack(hs, hs', live) && Stack(hs', live)
    requires Agrees(c, st, o, live, k, hs')
    ensures Agrees(c, st, o, live, k, hs)
  {
  }

  /** A try block that its users do not leave by return never reports one. */
  lemma {:induction false} NoReturn(v: Env, s: Stmt, st: State, fuel: nat, names: set<nat>)
    requires WellUsed(s, names, true)
    ensures Exec(v, s, st, fuel).1 != Returned
    decreases fuel, s
  {
    match s
    case Skip =>
    case Do(_) =>
    case Call(_) =>
    case Throw(_) =>
    case Seq(s1, s2) =>
      NoReturn(v, s1, st, fuel, names);
      NoReturn(v, s2, Exec(v, s1, st, fuel).0, fuel, names);
    case If(c, thn, els) =>
      NoReturn(v, if c(st, v.depth) then thn else els, st, fuel, names);
    case While(c, body) =>
      if c(st, v.depth) && fuel > 0 {
        NoReturn(v, body, st, fuel - 1, names);
        NoReturn(v, s, Exec(v, body, st, fuel - 1).0, fuel - 1, names);
      }
    case Try(r, body, catch, handler) =>
      NoReturn(v, body, SetCode(st, v.Own(r), 0), fuel, names + {r});
      var (st1, o1) := Exec(v, body, SetCode(st, v.Own(r), 0), fuel);
      if o1.Thrown? {
        NoReturn(v, handler, SetCode(st1, v.Own(r), JumpValue(o1.id)), fuel, names);
      }
  }

  // ---------- EM_TRY ... EM_END ----------

  /** The machine about to run the expansion of s, with k left to run after it. */
  function Begin(v: Env, s: Stmt, st: State, k: Kont, hs: Handlers): Config {
    Running(Then(Expand(v.depth, s), k), st, hs)
  }

  /** EM_END and what follows it. */
  function AtEnd(v: Env, r: nat, k: Kont): Kont {
    Then(IPop(v.Own(r)), k)
  }

  /** The continuation that setjmp saves: the rest of the macros, and what follows them. */
  function Resume(v: Env, s: Stmt, k: Kont): Kont
    requires s.Try?
  {
    var x := v.Own(s.r);
    Then(ISeq(Dispatch(x, Expand(v.depth, s.body), s.catch, Expand(v.depth, s.handler)), IPop(x)), k)
  }

  /** The handlers inside the try block. */
  function Entered(hs: Handlers, r: Rec, saved: Kont): Handlers {
    Push(hs, r).(jmp := hs.jmp[r := saved])
  }

  function Inside(v: Env, s: Stmt, k: Kont, hs: Handlers): Handlers
    requires s.Try?
  {
    Entered(hs, v.Own(s.r), Resume(v, s, k))
  }

  /** The state at the start of the block. */
  function Cleared(v: Env, s: Stmt, st: State): State
    requires s.Try?
  {
    SetCode(st, v.Own(s.r), 0)
  }

  /** EM_TRY pushes the record, saves the state and enters the block. */
  lemma EnterTry(v: Env, s: Stmt, st: State, k: Kont, hs: Handlers)
    requires s.Try?
    ensures Steps(v.prog, 6, Begin(v, s, st, k, hs))
         == Begin(v, s.body, Cleared(v, s, st), AtEnd(v, s.r, k), Inside(v, s, k, hs))
  {
    var x, saved := v.Own(s.r), Resume(v, s, k);
    var d := Dispatch(x, Expand(v.depth, s.body), s.catch, Expand(v.depth, s.handler));
    var c0 := Begin(v, s, st, k, hs);
    var c3 := Step(v.prog, Step(v.prog, Step(v.prog, c0)));
    assert c3 == Running(Then(ISetjmp(x), saved), st, Push(hs, x));
    var c4 := Step(v.prog, c3);
    assert c4 == Running(saved, Cleared(v, s, st), Inside(v, s, k, hs));
    var c5 := Step(v.prog, c4);
    assert c5 == Running(Then(d, AtEnd(v, s.r, k)), Cleared(v, s, st), Inside(v, s, k, hs));
    StepsAdd(v.prog, 3, 3, c0);
    ThreeSteps(v.prog, c0);
    ThreeSteps(v.prog, c3);
  }

  lemma ThreeSteps(p: Program, c: Config)
    ensures Steps(p, 3, c) == Step(p, Step(p, Step(p, c)))
  {
    StepsAdd(p, 1, 2, c);
    StepsAdd(p, 1, 1, Step(p, c));
  }

  lemma EnteredStack(hs: Handlers, r: Rec, saved: Kont, live: seq<Rec>)
    requires Stack(hs, live) && r !in live
    ensures Stack(Entered(hs, r, saved), [r] + live)
  {
    var hs' := Entered(hs, r, saved);
    LinkedIn(hs.top, hs.prev, live);
    LinkedSame(hs.top, hs.prev, hs'.prev, live);
    assert ([r] + live)[1..] == live;
  }

  /** EM_END after the block ran to its end: the record comes off the stack. */
  lemma LeaveTry(hs: Handlers, r: Rec, saved: Kont, live: seq<Rec>, hs': Handlers)
    requires Stack(hs, live) && r !in live
    requires SameStack(Entered(hs, r, saved), hs', [r] + live)
    ensures SameStack(hs, Pop(hs', r), live)
  {
    LinkedIn(hs.top, hs.prev, live);
    assert r in [r] + live;
    assert forall x :: x in live ==> x in [r] + live;
  }

  /** After a throw inside the block the record is off the stack already. */
  lemma CaughtStack(hs: Handlers, r: Rec, saved: Kont, live: seq<Rec>, hs': Handlers)
    requires Stack(hs, live) && r !in live
    requires SameStack(Pop(Entered(hs, r, saved), r), hs', live)
    ensures SameStack(hs, hs', live)
  {
  }

  /** Then EM_END's pop finds another record on top and does nothing. */
  lemma PopOther(hs: Handlers, r: Rec, live: seq<Rec>)
    requires Stack(hs, live) && r !in live
    ensures Pop(hs, r) == hs
  {
  }

  /** The jump lands in the cascade and runs the handler, if it matches. */
  lemma LandInCatch(v: Env, s: Stmt, st: State, k: Kont, hs: Handlers)
    requires s.Try? && Code(st, v.Own(s.r)) != 0
    ensures var i := if Matches(s.catch, st, v.Own(s.r)) then Expand(v.depth, s.handler) else INop;
            Steps(v.prog, 3, Running(Resume(v, s, k), st, hs)) == Running(Then(i, AtEnd(v, s.r, k)), st, hs)
  {
    var x := v.Own(s.r);
    var d := Dispatch(x, Expand(v.depth, s.body), s.catch, Expand(v.depth, s.handler));
    var c0 := Running(Resume(v, s, k), st, hs);
    assert Step(v.prog, c0) == Running(Then(d, AtEnd(v, s.r, k)), st, hs);
    ThreeSteps(v.prog, c0);
  }

  // ---------- The simulation ----------

  /** In n steps the expansion of s, followed by k, gets to where the ordinary semantics of s says. */
  ghost predicate Runs(v: Env, n: nat, s: Stmt, st: State, fuel: nat, live: seq<Rec>, k: Kont, hs: Handlers)
    requires Stack(hs, live)
  {
    Agrees(Steps(v.prog, n, Begin(v, s, st, k, hs)), Exec(v, s, st, fuel).0, Exec(v, s, st, fuel).1, live, k, hs)
  }

  lemma BasicRuns(v: Env, s: Stmt, st: State, fuel: nat, live: seq<Rec>, k: Kont, hs: Handlers)
    requires Stack(hs, live) && (s.Skip? || s.Do? || s.Return? || s.Throw?)
    ensures Runs(v, 1, s, st, fuel, live, k, hs)
  {
    LinkedIn(hs.top, hs.prev, live);
    var c := Begin(v, s, st, k, hs);
    assert Steps(v.prog, 1, c) == Step(v.prog, c);
  }

  /** The handlers after a statement that runs to its end. */
  lemma AfterNormal(v: Env, n: nat, s: Stmt, st: State, fuel: nat, live: seq<Rec>, k: Kont, hs: Handlers)
    returns (hs': Handlers)
    requires Stack(hs, live) && Runs(v, n, s, st, fuel, live, k, hs) && Exec(v, s, st, fuel).1 == Normal
    ensures Steps(v.prog, n, Begin(v, s, st, k, hs)) == Running(k, Exec(v, s, st, fuel).0, hs')
    ensures SameStack(hs, hs', live) && Stack(hs', live)
  {
    hs' := Steps(v.prog, n, Begin(v, s, st, k, hs)).hs;
    SameStackIsStack(hs, hs', live);
  }

  /** Two statements in a row, when the first one does not run to its end. */
  lemma FirstLeaves(v: Env, n: nat, s1: Stmt, s2: Stmt, st: State, fuel: nat, live: seq<Rec>, k: Kont, hs: Handlers)
    requires Stack(hs, live) && Runs(v, n, s1, st, fuel, live, Then(Expand(v.depth, s2), k), hs)
    requires Exec(v, s1, st, fuel).1 != Normal
    ensures Agrees(Steps(v.prog, n, Begin(v, s1, st, Then(Expand(v.depth, s2), k), hs)),
                   Exec(v, s1, st, fuel).0, Exec(v, s1, st, fuel).1, live, k, hs)
  {
  }

  /** Two statements in a row, when the first one does. */
  lemma BothRun(v: Env, m: nat, n: nat, s1: Stmt, s2: Stmt, st: State, st1: State, fuel: nat, live: seq<Rec>, k: Kont,
                hs: Handlers, hs1: Handlers)
    requires Stack(hs, live) && Stack(hs1, live) && SameStack(hs, hs1, live)
    requires Steps(v.prog, m, Begin(v, s1, st, Then(Expand(v.depth, s2), k), hs)) == Begin(v, s2, st1, k, hs1)
    requires Runs(v, n, s2, st1, fuel, live, k, hs1)
    ensures Agrees(Steps(v.prog, m + n, Begin(v, s1, st, Then(Expand(v.depth, s2), k), hs)),
                   Exec(v, s2, st1, fuel).0, Exec(v, s2, st1, fuel).1, live, k, hs)
  {
    var c := Begin(v, s1, st, Then(Expand(v.depth, s2), k), hs);
    StepsAdd(v.prog, m, n, c);
    AgreesVia(Steps(v.prog, m + n, c), Exec(v, s2, st1, fuel).0, Exec(v, s2, st1, fuel).1, live, k, hs, hs1);
  }

  // The first step of a statement that is not a basic one.

  lemma SeqStarts(v: Env, n: nat, s: Stmt, st: State, k: Kont, hs: Handlers)
    requires s.Seq?
    ensures Steps(v.prog, 1 + n, Begin(v, s, st, k, hs))
         == Steps(v.prog, n, Begin(v, s.s1, st, Then(Expand(v.depth, s.s2), k), hs))
  {
  }

  lemma IfStarts(v: Env, n: nat, s: Stmt, st: State, k: Kont, hs: Handlers)
    requires s.If?
    ensures Steps(v.prog, 1 + n, Begin(v, s, st, k, hs))
         == Steps(v.prog, n, Begin(v, if s.c(st, v.depth) then s.thn else s.els, st, k, hs))
  {
  }

  lemma LoopStarts(v: Env, n: nat, s: Stmt, st: State, k: Kont, hs: Handlers)
    requires s.While? && s.c(st, v.depth)
    ensures Steps(v.prog, 1 + n, Begin(v, s, st, k, hs))
         == Steps(v.prog, n, Begin(v, s.body, st, Then(Expand(v.depth, s), k), hs))
  {
  }

  lemma CallStarts(v: Env, n: nat, s: Stmt, st: State, k: Kont, hs: Handlers)
    requires s.Call?
    ensures Steps(v.prog, 1 + n, Begin(v, s, st, k, hs))
         == Steps(v.prog, n, Begin(v.Callee(), v.prog(s.name), st, Frame(k), hs))
  {
  }

  lemma LoopEnds(v: Env, s: Stmt, st: State, fuel: nat, live: seq<Rec>, k: Kont, hs: Handlers)
    requires Stack(hs, live) && s.While? && !s.c(st, v.depth)
    ensures Runs(v, 1, s, st, fuel, live, k, hs)
  {
    LinkedIn(hs.top, hs.prev, live);
    var c := Begin(v, s, st, k, hs);
    assert Steps(v.prog, 1, c) == Step(v.prog, c) == Running(k, st, hs);
  }

  /** A call turns return into running on. */
  lemma CallRuns(v: Env, n: nat, s: Stmt, st: State, fuel: nat, live: seq<Rec>, k: Kont, hs: Handlers)
    returns (n': nat)
    requires Stack(hs, live) && s.Call? && fuel > 0
    requires Runs(v.Callee(), n, v.prog(s.name), st, fuel - 1, live, Frame(k), hs)
    ensures Runs(v, n', s, st, fuel, live, k, hs)
  {
    n' := 1 + n;
    CallStarts(v, n, s, st, k, hs);
    if Exec(v.Callee(), v.prog(s.name), st, fuel - 1).1 == Normal {
      StepsAdd(v.prog, 1 + n, 1, Begin(v, s, st, k, hs));
      n' := 2 + n;
      var c1 := Steps(v.prog, 1 + n, Begin(v, s, st, k, hs));
      assert Steps(v.prog, n', Begin(v, s, st, k, hs)) == Step(v.prog, c1) == Running(k, c1.st, c1.hs);
    }
  }

  /** What is known of a try statement once its block has been simulated. */
  ghost predicate BlockRuns(v: Env, n: nat, s: Stmt, st: State, fuel: nat, live: seq<Rec>, k: Kont, hs: Handlers) {
    && s.Try? && v.Own(s.r) !in live
    && Stack(hs, live) && Stack(Inside(v, s, k, hs), [v.Own(s.r)] + live)
    && Runs(v, n, s.body, Cleared(v, s, st), fuel, [v.Own(s.r)] + live, AtEnd(v, s.r, k), Inside(v, s, k, hs))
  }

  /** The block of a try ran to its end. */
  lemma TryCompletes(v: Env, n: nat, s: Stmt, st: State, fuel: nat, live: seq<Rec>, k: Kont, hs: Handlers)
    requires BlockRuns(v, n, s, st, fuel, live, k, hs) && Exec(v, s.body, Cleared(v, s, st), fuel).1 == Normal
    ensures Runs(v, 6 + n + 1, s, st, fuel, live, k, hs)
  {
    var c := Begin(v, s, st, k, hs);
    EnterTry(v, s, st, k, hs);
    StepsAdd(v.prog, 6, n, c);
    var c1 := Steps(v.prog, 6 + n, c);
    LeaveTry(hs, v.Own(s.r), Resume(v, s, k), live, c1.hs);
    StepsAdd(v.prog, 6 + n, 1, c);
    assert Steps(v.prog, 6 + n + 1, c) == Step(v.prog, c1) == Running(k, c1.st, Pop(c1.hs, v.Own(s.r)));
  }

  /** The state in which the cascade runs after a throw in the block. */
  function Caught(v: Env, s: Stmt, st: State, fuel: nat): State
    requires s.Try? && Exec(v, s.body, Cleared(v, s, st), fuel).1.Thrown?
  {
    var (st1, o1) := Exec(v, s.body, Cleared(v, s, st), fuel);
    SetCode(st1, v.Own(s.r), JumpValue(o1.id))
  }

  /** The block threw: the machine lands in the cascade with the outer handlers in place. */
  lemma TryThrows(v: Env, n: nat, s: Stmt, st: State, fuel: nat, live: seq<Rec>, k: Kont, hs: Handlers)
    returns (hs': Handlers)
    requires BlockRuns(v, n, s, st, fuel, live, k, hs) && Exec(v, s.body, Cleared(v, s, st), fuel).1.Thrown?
    ensures SameStack(hs, hs', live) && Stack(hs', live)
    ensures var st2 := Caught(v, s, st, fuel);
            var i := if Matches(s.catch, st2, v.Own(s.r)) then Expand(v.depth, s.handler) else INop;
            Steps(v.prog, 6 + n + 3, Begin(v, s, st, k, hs)) == Running(Then(i, AtEnd(v, s.r, k)), st2, hs')
  {
    var c := Begin(v, s, st, k, hs);
    EnterTry(v, s, st, k, hs);
    StepsAdd(v.prog, 6, n, c);
    var c1 := Steps(v.prog, 6 + n, c);
    hs' := c1.hs;
    assert ([v.Own(s.r)] + live)[1..] == live;
    assert c1 == Running(Resume(v, s, k), Caught(v, s, st, fuel), hs');
    CaughtStack(hs, v.Own(s.r), Resume(v, s, k), live, hs');
    SameStackIsStack(hs, hs', live);
    LandInCatch(v, s, Caught(v, s, st, fuel), k, hs');
    StepsAdd(v.prog, 6 + n, 3, c);
  }

  /** No handler runs: the exception is swallowed. */
  lemma Swallowed(v: Env, r: nat, st: State, live: seq<Rec>, k: Kont, hs: Handlers)
    requires Stack(hs, live) && v.Own(r) !in live
    ensures Agrees(Steps(v.prog, 2, Running(Then(INop, AtEnd(v, r, k)), st, hs)), st, Normal, live, k, hs)
  {
    LinkedIn(hs.top, hs.prev, live);
    PopOther(hs, v.Own(r), live);
    StepsAdd(v.prog, 1, 1, Running(Then(INop, AtEnd(v, r, k)), st, hs));
  }

  /** The handler runs, and then EM_END. */
  lemma Handled(v: Env, n: nat, r: nat, handler: Stmt, st: State, fuel: nat, live: seq<Rec>, k: Kont, hs: Handlers)
    returns (n': nat)
    requires Stack(hs, live) && v.Own(r) !in live && Runs(v, n, handler, st, fuel, live, AtEnd(v, r, k), hs)
    ensures Agrees(Steps(v.prog, n', Begin(v, handler, st, AtEnd(v, r, k), hs)),
                   Exec(v, handler, st, fuel).0, Exec(v, handler, st, fuel).1, live, k, hs)
  {
    n' := n;
    if Exec(v, handler, st, fuel).1 == Normal {
      var hs1 := AfterNormal(v, n, handler, st, fuel, live, AtEnd(v, r, k), hs);
      PopOther(hs1, v.Own(r), live);
      StepsAdd(v.prog, n, 1, Begin(v, handler, st, AtEnd(v, r, k), hs));
      n' := n + 1;
    }
  }

  /** A try whose block threw, from the catch on. */
  lemma CatchRuns(v: Env, m: nat, n: nat, s: Stmt, st: State, fuel: nat, live: seq<Rec>, k: Kont, hs: Handlers,
                  hs': Handlers, c: Config)
    requires Stack(hs, live) && Stack(hs', live) && SameStack(hs, hs', live)
    requires Steps(v.prog, m, Begin(v, s, st, k, hs)) == c
    requires Agrees(Steps(v.prog, n, c), Exec(v, s, st, fuel).0, Exec(v, s, st, fuel).1, live, k, hs')
    ensures Runs(v, m + n, s, st, fuel, live, k, hs)
  {
    StepsAdd(v.prog, m, n, Begin(v, s, st, k, hs));
    AgreesVia(Steps(v.prog, n, c), Exec(v, s, st, fuel).0, Exec(v, s, st, fuel).1, live, k, hs, hs');
  }

  /** What the simulation needs to know at the start of a statement. */
  ghost predicate Ready(v: Env, s: Stmt, live: seq<Rec>, names: set<nat>, inTry: bool, hs: Handlers) {
    AllWellUsed(v.prog) && WellUsed(s, names, inTry) && Stack(hs, live) && Open(v, live, names)
  }

  lemma ReadyInside(v: Env, s: Stmt, live: seq<Rec>, names: set<nat>, inTry: bool, k: Kont, hs: Handlers)
    requires Ready(v, s, live, names, inTry, hs) && s.Try?
    ensures v.Own(s.r) !in live
    ensures Ready(v, s.body, [v.Own(s.r)] + live, names + {s.r}, true, Inside(v, s, k, hs))
  {
    EnteredStack(hs, v.Own(s.r), Resume(v, s, k), live);
  }

  lemma ReadyCallee(v: Env, s: Stmt, live: seq<Rec>, names: set<nat>, inTry: bool, hs: Handlers)
    requires Ready(v, s, live, names, inTry, hs) && s.Call?
    ensures Ready(v.Callee(), v.prog(s.name), live, {}, false, hs)
  {
  }

  /** The expanded macros run to where the ordinary semantics says, and leave the handler stack as it was. */
  lemma {:induction false} Simulate(v: Env, s: Stmt, st: State, fuel: nat, live: seq<Rec>, names: set<nat>, inTry: bool,
                                    k: Kont, hs: Handlers) returns (n: nat)
    requires Ready(v, s, live, names, inTry, hs) && Exec(v, s, st, fuel).1 != Timeout
    ensures Runs(v, n, s, st, fuel, live, k, hs)
    decreases fuel, s
  {
    hide Agrees, SameStack, Stack, Open, AllWellUsed, Step, Steps, Inside, Resume, Cleared, Begin;
    match s
    case Skip =>
      n := 1;
      BasicRuns(v, s, st, fuel, live, k, hs);
    case Do(_) =>
      n := 1;
      BasicRuns(v, s, st, fuel, live, k, hs);
    case Return =>
      n := 1;
      BasicRuns(v, s, st, fuel, live, k, hs);
    case Throw(_) =>
      n := 1;
      BasicRuns(v, s, st, fuel, live, k, hs);
    case If(c, thn, els) =>
      var m := Simulate(v, if c(st, v.depth) then thn else els, st, fuel, live, names, inTry, k, hs);
      IfStarts(v, m, s, st, k, hs);
      n := 1 + m;
    case Call(name) =>
      ReadyCallee(v, s, live, names, inTry, hs);
      var m := Simulate(v.Callee(), v.prog(name), st, fuel - 1, live, {}, false, Frame(k), hs);
      n := CallRuns(v, m, s, st, fuel, live, k, hs);
    case Seq(s1, s2) =>
      var m := Simulate(v, s1, st, fuel, live, names, inTry, Then(Expand(v.depth, s2), k), hs);
      var (st1, o1) := Exec(v, s1, st, fuel);
      if o1 == Normal {
        var hs1 := Between(v, m, s1, s2, st, fuel, live, k, hs);
        var m2 := Simulate(v, s2, st1, fuel, live, names, inTry, k, hs1);
        BothRun(v, m, m2, s1, s2, st, st1, fuel, live, k, hs, hs1);
        n := 1 + (m + m2);
      } else {
        FirstLeaves(v, m, s1, s2, st, fuel, live, k, hs);
        n := 1 + m;
      }
      SeqStarts(v, n - 1, s, st, k, hs);
    case While(c, body) =>
      if !c(st, v.depth) {
        n := 1;
        LoopEnds(v, s, st, fuel, live, k, hs);
      } else {
        var m := Simulate(v, body, st, fuel - 1, live, names, inTry, Then(Expand(v.depth, s), k), hs);
        var (st1, o1) := Exec(v, body, st, fuel - 1);
        if o1 == Normal {
          var hs1 := Between(v, m, body, s, st, fuel - 1, live, k, hs);
          var m2 := Simulate(v, s, st1, fuel - 1, live, names, inTry, k, hs1);
          BothRun(v, m, m2, body, s, st, st1, fuel - 1, live, k, hs, hs1);
          n := 1 + (m + m2);
        } else {
          FirstLeaves(v, m, body, s, st, fuel - 1, live, k, hs);
          n := 1 + m;
        }
        LoopStarts(v, n - 1, s, st, k, hs);
      }
    case Try(r, body, catch, handler) =>
      n := SimulateTry(v, s, st, fuel, live, names, inTry, k, hs);
  }

  /** The handlers between two statements in a row. */
  lemma Between(v: Env, m: nat, s1: Stmt, s2: Stmt, st: State, fuel: nat, live: seq<Rec>, k: Kont, hs: Handlers)
    returns (hs1: Handlers)
    requires Stack(hs, live) && Runs(v, m, s1, st, fuel, live, Then(Expand(v.depth, s2), k), hs)
    requires Exec(v, s1, st, fuel).1 == Normal
    ensures Steps(v.prog, m, Begin(v, s1, st, Then(Expand(v.depth, s2), k), hs))
         == Begin(v, s2, Exec(v, s1, st, fuel).0, k, hs1)
    ensures SameStack(hs, hs1, live) && Stack(hs1, live)
  {
    hs1 := AfterNormal(v, m, s1, st, fuel, live, Then(Expand(v.depth, s2), k), hs);
  }

  lemma {:induction false} SimulateTry(v: Env, s: Stmt, st: State, fuel: nat, live: seq<Rec>, names: set<nat>,
                                       inTry: bool, k: Kont, hs: Handlers) returns (n: nat)
    requires s.Try? && Ready(v, s, live, names, inTry, hs) && Exec(v, s, st, fuel).1 != Timeout
    ensures Runs(v, n, s, st, fuel, live, k, hs)
    decreases fuel, s, 1
  {
    hide Agrees, SameStack, Stack, Open, AllWellUsed, Step, Steps, Inside, Resume, Begin, Runs;
    var m := SimulateBlock(v, s, st, fuel, live, names, inTry, k, hs);
    NoReturn(v, s.body, Cleared(v, s, st), fuel, names + {s.r});
    var (st1, o1) := Exec(v, s.body, Cleared(v, s, st), fuel);
    if o1 == Normal {
      TryCompletes(v, m, s, st, fuel, live, k, hs);
      n := 6 + m + 1;
    } else {
      n := SimulateCatch(v, m, s, st, fuel, live, names, inTry, k, hs);
    }
  }

  lemma {:induction false} SimulateBlock(v: Env, s: Stmt, st: State, fuel: nat, live: seq<Rec>, names: set<nat>,
                                         inTry: bool, k: Kont, hs: Handlers) returns (m: nat)
    requires s.Try? && Ready(v, s, live, names, inTry, hs)
    requires Exec(v, s.body, Cleared(v, s, st), fuel).1 != Timeout
    ensures BlockRuns(v, m, s, st, fuel, live, k, hs)
    decreases fuel, s, 0
  {
    hide Agrees, SameStack, Stack, Open, AllWellUsed, Step, Steps, Inside, Resume, Begin, Runs, Cleared;
    ReadyInside(v, s, live, names, inTry, k, hs);
    m := Simulate(v, s.body, Cleared(v, s, st), fuel, [v.Own(s.r)] + live, names + {s.r}, true, AtEnd(v, s.r, k),
                  Inside(v, s, k, hs));
  }

  lemma {:induction false} SimulateCatch(v: Env, m: nat, s: Stmt, st: State, fuel: nat, live: seq<Rec>, names: set<nat>,
                                         inTry: bool, k: Kont, hs: Handlers) returns (n: nat)
    requires Ready(v, s, live, names, inTry, hs) && BlockRuns(v, m, s, st, fuel, live, k, hs)
    requires Exec(v, s.body, Cleared(v, s, st), fuel).1.Thrown? && Exec(v, s, st, fuel).1 != Timeout
    ensures Runs(v, n, s, st, fuel, live, k, hs)
    decreases fuel, s, 0
  {
    hide Agrees, SameStack, Stack, Open, AllWellUsed, Step, Steps, Inside, Resume;
    var hs1 := TryThrows(v, m, s, st, fuel, live, k, hs);
    var st2 := Caught(v, s, st, fuel);
    var rest := AtEnd(v, s.r, k);
    if Matches(s.catch, st2, v.Own(s.r)) {
      var m2 := Simulate(v, s.handler, st2, fuel, live, names, inTry, rest, hs1);
      m2 := Handled(v, m2, s.r, s.handler, st2, fuel, live, k, hs1);
      CatchRuns(v, 6 + m + 3, m2, s, st, fuel, live, k, hs, hs1, Begin(v, s.handler, st2, rest, hs1));
      n := 6 + m + 3 + m2;
    } else {
      Swallowed(v, s.r, st2, live, k, hs1);
      CatchRuns(v, 6 + m + 3, 2, s, st, fuel, live, k, hs, hs1, Running(Then(INop, rest), st2, hs1));
      n := 6 + m + 3 + 2;
    }
  }

  // ---------- Statements that do not end ----------

  /** After n steps the machine still runs, in the state that the ordinary semantics has reached. */
  ghost predicate Going(c: Config, st: State) {
    c.Running? && c.k != Stop && c.st == st
  }

  ghost predicate Goes(v: Env, n: nat, s: Stmt, st: State, fuel: nat, k: Kont, hs: Handlers) {
    Going(Steps(v.prog, n, Begin(v, s, st, k, hs)), Exec(v, s, st, fuel).0)
  }

  /** When the ordinary semantics uses up its fuel, the machine runs for at least as many steps without ending. */
  lemma {:induction false} Diverges(v: Env, s: Stmt, st: State, fuel: nat, live: seq<Rec>, names: set<nat>, inTry: bool,
                                    k: Kont, hs: Handlers) returns (n: nat)
    requires Ready(v, s, live, names, inTry, hs) && Exec(v, s, st, fuel).1 == Timeout
    ensures n >= fuel && Goes(v, n, s, st, fuel, k, hs)
    decreases fuel, s
  {
    hide Agrees, SameStack, Stack, Open, AllWellUsed, Step, Steps, Inside, Resume, Going;
    match s
    case If(c, thn, els) =>
      var m := Diverges(v, if c(st, v.depth) then thn else els, st, fuel, live, names, inTry, k, hs);
      IfStarts(v, m, s, st, k, hs);
      n := 1 + m;
    case Call(name) =>
      n := 0;
      if fuel == 0 {
        StandsStill(v, s, st, k, hs);
      } else {
        ReadyCallee(v, s, live, names, inTry, hs);
        var m := Diverges(v.Callee(), v.prog(name), st, fuel - 1, live, {}, false, Frame(k), hs);
        CallStarts(v, m, s, st, k, hs);
        n := 1 + m;
      }
    case Seq(s1, s2) =>
      var m := DivergesInRow(v, s1, s2, st, fuel, live, names, inTry, k, hs);
      SeqStarts(v, m, s, st, k, hs);
      n := 1 + m;
    case While(c, body) =>
      n := 0;
      if fuel == 0 {
        StandsStill(v, s, st, k, hs);
      } else {
        var m := DivergesInRow(v, body, s, st, fuel - 1, live, names, inTry, k, hs);
        LoopStarts(v, m, s, st, k, hs);
        n := 1 + m;
      }
    case Try(r, body, catch, handler) =>
      n := DivergesInTry(v, s, st, fuel, live, names, inTry, k, hs);
  }

  lemma StandsStill(v: Env, s: Stmt, st: State, k: Kont, hs: Handlers)
    ensures Going(Steps(v.prog, 0, Begin(v, s, st, k, hs)), st)
  {
  }

  /** Two statements in a row, one of which does not end. */
  lemma {:induction false} DivergesInRow(v: Env, s1: Stmt, s2: Stmt, st: State, fuel: nat, live: seq<Rec>,
                                         names: set<nat>, inTry: bool, k: Kont, hs: Handlers) returns (n: nat)
    requires Ready(v, s1, live, names, inTry, hs) && Ready(v, s2, live, names, inTry, hs)
    requires var (st1, o1) := Exec(v, s1, st, fuel);
             o1 == Timeout || (o1 == Normal && Exec(v, s2, st1, fuel).1 == Timeout)
    ensures var (st1, o1) := Exec(v, s1, st, fuel);
            && n >= fuel
            && Going(Steps(v.prog, n, Begin(v, s1, st, Then(Expand(v.depth, s2), k), hs)),
                     if o1 == Timeout then st1 else Exec(v, s2, st1, fuel).0)
    decreases fuel, Seq(s1, s2), 0
  {
    var rest := Then(Expand(v.depth, s2), k);
    var (st1, o1) := Exec(v, s1, st, fuel);
    if o1 == Timeout {
      n := Diverges(v, s1, st, fuel, live, names, inTry, rest, hs);
    } else {
      var m := Simulate(v, s1, st, fuel, live, names, inTry, rest, hs);
      var hs1 := Between(v, m, s1, s2, st, fuel, live, k, hs);
      var m2 := Diverges(v, s2, st1, fuel, live, names, inTry, k, hs1);
      StepsAdd(v.prog, m, m2, Begin(v, s1, st, rest, hs));
      n := m + m2;
    }
  }

  /** A try whose block or whose handler does not end. */
  lemma {:induction false} DivergesInTry(v: Env, s: Stmt, st: State, fuel: nat, live: seq<Rec>, names: set<nat>,
                                         inTry: bool, k: Kont, hs: Handlers) returns (n: nat)
    requires s.Try? && Ready(v, s, live, names, inTry, hs) && Exec(v, s, st, fuel).1 == Timeout
    ensures n >= fuel && Goes(v, n, s, st, fuel, k, hs)
    decreases fuel, s, 0
  {
    hide Agrees, SameStack, Stack, Open, AllWellUsed, Step, Steps, Inside, Resume, Going, Runs;
    var st0 := Cleared(v, s, st);
    var c := Begin(v, s, st, k, hs);
    if Exec(v, s.body, st0, fuel).1 == Timeout {
      ReadyInside(v, s, live, names, inTry, k, hs);
      var m := Diverges(v, s.body, st0, fuel, [v.Own(s.r)] + live, names + {s.r}, true, AtEnd(v, s.r, k),
                        Inside(v, s, k, hs));
      EnterTry(v, s, st, k, hs);
      StepsAdd(v.prog, 6, m, c);
      n := 6 + m;
    } else {
      var m := SimulateBlock(v, s, st, fuel, live, names, inTry, k, hs);
      var hs1 := TryThrows(v, m, s, st, fuel, live, k, hs);
      var m2 := Diverges(v, s.handler, Caught(v, s, st, fuel), fuel, live, names, inTry, AtEnd(v, s.r, k), hs1);
      StepsAdd(v.prog, 6 + m + 3, m2, c);
      n := 6 + m + 3 + m2;
    }
  }

  /** Push and pop on the links are push and pop on the sequence of records. */
  lemma LinksAreStack(hs: Handlers, r: Rec, live: seq<Rec>)
    requires Stack(hs, live)
    ensures r !in live ==> Linked(Push(hs, r).top, Push(hs, r).prev, [r] + live)
    ensures var popped := if live != [] && live[0] == r then live[1..] else live;
            Linked(Pop(hs, r).top, Pop(hs, r).prev, popped)
  {
    LinkedIn(hs.top, hs.prev, live);
    if r !in live {
      LinkedSame(hs.top, hs.prev, Push(hs, r).prev, live);
      assert ([r] + live)[1..] == live;
    }
  }

  // ---------- Whole programs ----------

  const NoHandlers := Handlers(None, map[], map[])

  /** The machine at the start of a program whose main function has the body s. */
  function Launch(v: Env, s: Stmt, st: State): Config {
    Begin(v, s, st, Stop, NoHandlers)
  }

  predicate Ended(c: Config) {
    c.Crashed? || c.k == Stop
  }

  /** A program that follows the rules ends as its ordinary meaning says: an exception that nobody catches is a crash,
      and otherwise the machine has nothing left to run and no handler on its stack. */
  lemma ProgramMeaning(v: Env, s: Stmt, st: State, fuel: nat) returns (n: nat)
    requires AllWellUsed(v.prog) && WellUsed(s, {}, false) && Exec(v, s, st, fuel).1 != Timeout
    ensures var (st', o) := Exec(v, s, st, fuel);
            var c := Steps(v.prog, n, Launch(v, s, st));
            if o.Thrown? then c == Crashed(o.id, st') else c.Running? && c.k == Stop && c.st == st' && c.hs.top == None
  {
    n := Simulate(v, s, st, fuel, [], {}, false, Stop, NoHandlers);
  }

  /** A configuration with nothing left to run stays as it is, so the end above is the only one. */
  lemma {:induction false} EndIsFinal(p: Program, n: nat, c: Config)
    requires Ended(c)
    ensures Steps(p, n, c) == c
  {
    if n > 0 {
      EndIsFinal(p, n - 1, c);
    }
  }

  lemma EndsAreEqual(p: Program, m: nat, n: nat, c: Config)
    requires Ended(Steps(p, m, c)) && n >= m
    ensures Steps(p, n, c) == Steps(p, m, c)
  {
    StepsAdd(p, m, n - m, c);
    EndIsFinal(p, n - m, Steps(p, m, c));
  }

  /** Any end that the machine reaches is the one that the ordinary meaning gives, which ends as well. */
  lemma OnlyEnd(v: Env, s: Stmt, st: State, m: nat) returns (fuel: nat)
    requires AllWellUsed(v.prog) && WellUsed(s, {}, false)
    requires Ended(Steps(v.prog, m, Launch(v, s, st)))
    ensures Exec(v, s, st, fuel).1 != Timeout
    ensures var (st', o) := Exec(v, s, st, fuel);
            var c := Steps(v.prog, m, Launch(v, s, st));
            if o.Thrown? then c == Crashed(o.id, st') else c.Running? && c.k == Stop && c.st == st' && c.hs.top == None
  {
    var c := Launch(v, s, st);
    fuel := m;
    if Exec(v, s, st, fuel).1 == Timeout {
      var n := Diverges(v, s, st, fuel, [], {}, false, Stop, NoHandlers);
      EndsAreEqual(v.prog, m, n, c);
      assert false;
    }
    var n := ProgramMeaning(v, s, st, fuel);
    if m <= n {
      EndsAreEqual(v.prog, m, n, c);
    } else {
      EndsAreEqual(v.prog, n, m, c);
    }
  }

  predicate MachineEndsAt(v: Env, s: Stmt, st: State, n: nat) {
    Ended(Steps(v.prog, n, Launch(v, s, st)))
  }

  predicate MeaningEndsAt(v: Env, s: Stmt, st: State, fuel: nat) {
    Exec(v, s, st, fuel).1 != Timeout
  }

  /** The machine ends if and only if the ordinary meaning does. */
  lemma EndsIff(v: Env, s: Stmt, st: State)
    requires AllWellUsed(v.prog) && WellUsed(s, {}, false)
    ensures (exists n :: MachineEndsAt(v, s, st, n)) <==> (exists fuel :: MeaningEndsAt(v, s, st, fuel))
  {
    if n :| MachineEndsAt(v, s, st, n) {
      var fuel := OnlyEnd(v, s, st, n);
      assert MeaningEndsAt(v, s, st, fuel);
    }
    if fuel :| MeaningEndsAt(v, s, st, fuel) {
      var n := ProgramMeaning(v, s, st, fuel);
      assert MachineEndsAt(v, s, st, n);
    }
  }

  // ---------- Which handler runs ----------

  /** The state in which a handler finds itself after the block has thrown a: longjmp turns 0 into 1. */
  function ThrownState(v: Env, r: nat, st: State, a: int): State {
    State(st.vars, st.codes[Rec(r, v.depth) := if a == 0 then 1 else a])
  }

  /** What a try means when its block throws a: EM_CATCH runs its handler if and only if it names that exception, where
      0 counts as 1, EM_CATCH_ANY always does, and otherwise the try ends there, with what the block left. */
  lemma CatchMeans(v: Env, s: Stmt, st: State, fuel: nat, st1: State, a: int)
    requires s.Try? && Exec(v, s.body, State(st.vars, st.codes[Rec(s.r, v.depth) := 0]), fuel) == (st1, Thrown(a))
    ensures var st2 := ThrownState(v, s.r, st1, a);
            && (s.catch.CatchAny? ==> Exec(v, s, st, fuel) == Exec(v, s.handler, st2, fuel))
            && (s.catch.CatchId? && s.catch.id(st2, v.depth) == (if a == 0 then 1 else a) ==>
                  Exec(v, s, st, fuel) == Exec(v, s.handler, st2, fuel))
            && (s.catch.CatchId? && s.catch.id(st2, v.depth) != (if a == 0 then 1 else a) ==>
                  Exec(v, s, st, fuel) == (st2, Normal))
  {
  }

  /** And what the machine does: it comes to the handler, or past it, under the same conditions and in the same state,
      with the handlers before the try in place and EM_END still to come. */
  lemma MachineCatches(v: Env, s: Stmt, st: State, fuel: nat, live: seq<Rec>, names: set<nat>, inTry: bool, k: Kont,
                       hs: Handlers, st1: State, a: int) returns (n: nat, hs': Handlers)
    requires Ready(v, s, live, names, inTry, hs)
    requires s.Try? && Exec(v, s.body, State(st.vars, st.codes[Rec(s.r, v.depth) := 0]), fuel) == (st1, Thrown(a))
    ensures SameStack(hs, hs', live)
    ensures var st2 := ThrownState(v, s.r, st1, a);
            var caught := s.catch.CatchAny? || s.catch.id(st2, v.depth) == if a == 0 then 1 else a;
            var k' := Then(if caught then Expand(v.depth, s.handler) else INop, Then(IPop(Rec(s.r, v.depth)), k));
            Steps(v.prog, n, Running(Then(Expand(v.depth, s), k), st, hs)) == Running(k', st2, hs')
  {
    var m := SimulateBlock(v, s, st, fuel, live, names, inTry, k, hs);
    hs' := TryThrows(v, m, s, st, fuel, live, k, hs);
    n := 6 + m + 3;
  }

  /** For instance, of a program that throws a and catches b, the handler's action g happens if and only if the two are
      equal, where a thrown 0 counts as 1. */
  lemma ThrowCatchProgram(v: Env, a: int, b: int, g: (State, nat) -> map<string, int>, st: State) returns (n: nat)
    requires AllWellUsed(v.prog)
    ensures var s := Try(0, Throw((_: State, _: nat) => a), CatchId((_: State, _: nat) => b), Do(g));
            var st2 := ThrownState(v, 0, st, a);
            var vars := if b == (if a == 0 then 1 else a) then g(st2, v.depth) else st.vars;
            var c := Steps(v.prog, n, Running(Then(Expand(v.depth, s), Stop), st, NoHandlers));
            c.Running? && c.k == Stop && c.st.vars == vars && c.hs.top == None
  {
    var s := Try(0, Throw((_: State, _: nat) => a), CatchId((_: State, _: nat) => b), Do(g));
    var st0 := State(st.vars, st.codes[Rec(0, v.depth) := 0]);
    CatchMeans(v, s, st, 0, st0, a);
    assert st0.codes[Rec(0, v.depth) := if a == 0 then 1 else a]
           == st.codes[Rec(0, v.depth) := if a == 0 then 1 else a];
    n := ProgramMeaning(v, s, st, 0);
  }

  // ---------- What the rules are for ----------

  /** Some finite sequence of records is all there is from the top down. */
  ghost predicate IsFinite(hs: Handlers) {
    exists live: seq<Rec> :: Linked(hs.top, hs.prev, live)
  }

  /** Pushing a record keeps the handlers a stack exactly when the record is not on it yet. */
  lemma PushKeepsStackIff(hs: Handlers, r: Rec, live: seq<Rec>)
    requires Stack(hs, live)
    ensures IsFinite(Push(hs, r)) <==> r !in live
  {
    var hs' := Push(hs, r);
    if r !in live {
      LinkedIn(hs.top, hs.prev, live);
      LinkedSame(hs.top, hs.prev, hs'.prev, live);
      var live': seq<Rec> := [r] + live;
      assert live'[1..] == live;
      assert Linked(hs'.top, hs'.prev, live');
    } else {
      forall live': seq<Rec> | Linked(hs'.top, hs'.prev, live')
        ensures false
      {
        NoEndFrom(hs, r, live, r, live');
      }
    }
  }

  /** After pushing r onto a stack that has it, the links lead from every record down to r back to r, for ever. */
  lemma {:induction false} NoEndFrom(hs: Handlers, r: Rec, live: seq<Rec>, x: Rec, rest: seq<Rec>)
    requires Stack(hs, live) && r in live && (x == r || x in Above(live, r))
    requires Linked(Some(x), Push(hs, r).prev, rest)
    ensures false
    decreases |rest|
  {
    var hs' := Push(hs, r);
    if x == r {
      NoEndFrom(hs, r, live, live[0], rest[1..]);
    } else {
      NextAbove(hs.top, hs.prev, live, r, x);
      NoEndFrom(hs, r, live, hs.prev[x].value, rest[1..]);
    }
  }

  /** The records above r. */
  function Above(live: seq<Rec>, r: Rec): seq<Rec> {
    if live == [] || live[0] == r then [] else [live[0]] + Above(live[1..], r)
  }

  lemma {:induction false} NextAbove(top: Option<Rec>, prev: map<Rec, Option<Rec>>, live: seq<Rec>, r: Rec, x: Rec)
    requires Linked(top, prev, live) && r in live && x in Above(live, r)
    ensures x in prev && prev[x].Some? && (prev[x].value == r || prev[x].value in Above(live, r))
    decreases |live|
  {
    assert r in live[1..];
    if x != live[0] || x in Above(live[1..], r) {
      NextAbove(prev[live[0]], prev, live[1..], r, x);
    }
  }

  /** Whatever block it leaves, and from wherever in it, a return inside a try leaves the dead record on the handler
      stack, on top of the handlers before. */
  lemma ReturnInTryLeavesHandler(v: Env, s: Stmt, st: State, fuel: nat, live: seq<Rec>, names: set<nat>, k: Kont,
                                 hs: Handlers) returns (n: nat)
    requires AllWellUsed(v.prog) && Stack(hs, live) && Open(v, live, names)
    requires s.Try? && s.r !in names && WellUsed(s.body, names + {s.r}, false)
    requires Exec(v, s.body, Cleared(v, s, st), fuel).1 == Returned
    ensures var c := Steps(v.prog, n, Begin(v, s, st, k, hs));
            && c.Running? && c.k == Unwind(k) && c.st == Exec(v, s, st, fuel).0
            && Stack(c.hs, [v.Own(s.r)] + live)
  {
    EnteredStack(hs, v.Own(s.r), Resume(v, s, k), live);
    var m := Simulate(v, s.body, Cleared(v, s, st), fuel, [v.Own(s.r)] + live, names + {s.r}, false, AtEnd(v, s.r, k),
                      Inside(v, s, k, hs));
    EnterTry(v, s, st, k, hs);
    StepsAdd(v.prog, 6, m, Begin(v, s, st, k, hs));
    n := 6 + m;
    SameStackIsStack(Inside(v, s, k, hs), Steps(v.prog, n, Begin(v, s, st, k, hs)).hs, [v.Own(s.r)] + live);
  }

  // ---------- The functions of src/except.c on the records themselves ----------

  /** struct em_exception_state_t; the saved state is not looked at here. */
  class Record {
    var prev: Record?

    constructor ()
    {
      prev := null;
    }
  }

  /** The thread-local handler pointer. */
  class Thread {
    var handler: Record?
    ghost var stack: seq<Record>

    ghost predicate Valid()
      reads this, stack
    {
      && handler == (if stack == [] then null else stack[0])
      && (forall i, j :: 0 <= i < j < |stack| ==> stack[i] != stack[j])
      && (forall i, j :: 0 <= i < j < |stack| && j == i + 1 ==> stack[i].prev == stack[j])
      && (stack != [] ==> stack[|stack| - 1].prev == null)
    }

    constructor ()
      ensures Valid() && stack == []
    {
      handler := null;
      stack := [];
    }

    /** em_push_exception_handler_ */
    method PushHandler(rec: Record)
      requires Valid() && rec !in stack
      modifies this, rec
      ensures Valid() && stack == [rec] + old(stack)
    {
      rec.prev := handler;
      handler := rec;
      stack := [rec] + stack;
    }

    /** em_pop_exception_handler_ */
    method PopHandler(rec: Record?)
      requires Valid()
      modifies this
      ensures Valid() && stack == if old(stack) != [] && old(stack)[0] == rec then old(stack)[1..] else old(stack)
    {
      if handler != null && handler == rec {
        handler := handler.prev;
        stack := stack[1..];
      }
    }

    /** em_throw_exception_: the record to jump to, or null where the code runs into its assertion. */
    method ThrowException() returns (target: Record?)
      requires Valid()
      modifies this
      ensures Valid()
      ensures old(stack) == [] ==> target == null && stack == []
      ensures old(stack) != [] ==> target == old(stack)[0] && stack == old(stack)[1..]
    {
      target := handler;
      if target != null {
        PopHandler(target);
      }
    }
  }
}
