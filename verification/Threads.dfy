/**
 The respawning threads of JavaScriptThreading.cpp as an interleaved state
 machine. A step is one action of one thread: taking the mutex, one change made
 under it, or leaving a locked region. The number of threads n is arbitrary.
 */
module Threads {
  import opened Options

  type Tid = nat  // threads are numbered in the order they are created; numbers are never reused

  /** The locked regions of runJavaScriptThread; the last one remembers whether the thread replaced itself. */
  datatype Region = Context | Text | Eval | Alloc | Check | Respawn | Cleanup(left: bool)

  datatype Pc =
    | Wait(region: Region)
    | In(region: Region)
    | Read(stop: bool)      // line 99 has read the flag, the lock is still held
    | Choosing              // lines 103-105, no lock
    | Removed               // line 110 done
    | Created(child: Tid)   // line 111: the child runs but is not in the set yet
    | Added                 // line 111 done
    | Done(left: bool)

  datatype MainPc =
    | BeforeStart
    | Starting(i: nat)                        // lines 127-128, holding the lock
    | StartingCreated(i: nat, child: Tid)
    | Running
    | Flagging                                // line 134
    | Flagged                                 // line 135 done, lock still held
    | Stopping
    | Snapshotting                            // line 140
    | Copied(snapshot: set<Tid>)              // line 141 done, lock still held
    | Snapped(snapshot: set<Tid>)             // line 143

  datatype Owner = Free | Main | Worker(t: Tid)

  datatype State = State(n: nat, owner: Owner, flag: bool, ids: set<Tid>, threads: seq<Pc>, main: MainPc)

  /** Who moves; respawn is the outcome of the random choice, when there is one. */
  datatype Label = MainStep | WorkerStep(t: Tid, respawn: bool)

  function Init(n: nat): State { State(n, Free, false, {}, [], BeforeStart) }

  function Release(s: State, t: Tid, pc: Pc): State
    requires t < |s.threads|
  {
    s.(owner := Free, threads := s.threads[t := pc])
  }

  function StepWorker(s: State, t: Tid, respawn: bool): Option<State>
    requires t < |s.threads|
  {
    match s.threads[t]
    case Wait(r) => if s.owner == Free then Some(s.(owner := Worker(t), threads := s.threads[t := In(r)])) else None
    case In(Context) => Some(Release(s, t, Wait(Text)))
    case In(Text) => Some(Release(s, t, Wait(Eval)))
    case In(Eval) => Some(Release(s, t, Wait(Alloc)))
    case In(Alloc) => Some(Release(s, t, Wait(Check)))
    case In(Check) => Some(s.(threads := s.threads[t := Read(s.flag)]))
    case Read(stop) => Some(Release(s, t, if stop then Wait(Cleanup(false)) else Choosing))
    case Choosing => Some(s.(threads := s.threads[t := Wait(if respawn then Respawn else Eval)]))
    case In(Respawn) => Some(s.(threads := s.threads[t := Removed], ids := s.ids - {t}))
    case Removed => Some(s.(threads := s.threads[t := Created(|s.threads|)] + [Wait(Context)]))
    case Created(c) => Some(s.(threads := s.threads[t := Added], ids := s.ids + {c}))
    case Added => Some(Release(s, t, Wait(Cleanup(true))))
    case In(Cleanup(left)) => Some(Release(s, t, Done(left)))
    case Done(_) => None
  }

  function StepMain(s: State): Option<State> {
    match s.main
    case BeforeStart => if s.owner == Free then Some(s.(owner := Main, main := Starting(0))) else None
    case Starting(i) =>
      if i < s.n then Some(s.(threads := s.threads + [Wait(Context)], main := StartingCreated(i, |s.threads|)))
      else Some(s.(owner := Free, main := Running))
    case StartingCreated(i, c) => Some(s.(ids := s.ids + {c}, main := Starting(i + 1)))
    case Running => if s.owner == Free then Some(s.(owner := Main, main := Flagging)) else None
    case Flagging => Some(s.(flag := true, main := Flagged))
    case Flagged => Some(s.(owner := Free, main := Stopping))
    case Stopping => if s.owner == Free then Some(s.(owner := Main, main := Snapshotting)) else None
    case Snapshotting => Some(s.(main := Copied(s.ids)))
    case Copied(snapshot) => Some(s.(owner := Free, main := Snapped(snapshot)))
    case Snapped(_) => None
  }

  function Step(s: State, l: Label): Option<State> {
    match l
    case MainStep => StepMain(s)
    case WorkerStep(t, respawn) => if t < |s.threads| then StepWorker(s, t, respawn) else None
  }

  /** A schedule, run from s; None when some label cannot move. */
  function Exec(s: State, ls: seq<Label>): Option<State>
    decreases ls
  {
    if ls == [] then Some(s)
    else
      match Step(s, ls[0])
      case None => None
      case Some(u) => Exec(u, ls[1..])
  }

  ghost predicate Reachable(n: nat, s: State) {
    exists ls :: Exec(Init(n), ls) == Some(s)
  }

  // ---- the invariant -----------------------------------------------------------

  /** The thread is inside a locked region. */
  predicate Holds(pc: Pc) {
    pc.In? || pc.Read? || pc.Removed? || pc.Created? || pc.Added?
  }

  /** The thread has taken itself out of the set. */
  predicate Left(pc: Pc) {
    match pc
    case Removed => true
    case Created(_) => true
    case Added => true
    case Wait(Cleanup(left)) => left
    case In(Cleanup(left)) => left
    case Done(left) => left
    case _ => false
  }

  predicate MainHolds(m: MainPc) {
    m.Starting? || m.StartingCreated? || m.Flagging? || m.Flagged? || m.Snapshotting? || m.Copied?
  }

  /** t runs, but its parent has not put it in the set yet. */
  predicate Pending(s: State, t: Tid) {
    || (s.main.StartingCreated? && s.main.child == t)
    || (s.owner.Worker? && s.owner.t < |s.threads| && s.threads[s.owner.t] == Created(t))
  }

  /** Between removing itself and adding its child, a worker leaves the set one short. */
  predicate Short(s: State) {
    s.owner.Worker? && s.owner.t < |s.threads| && (s.threads[s.owner.t].Removed? || s.threads[s.owner.t].Created?)
  }

  predicate Begun(m: MainPc) {
    !(m.BeforeStart? || m.Starting? || m.StartingCreated?)
  }

  ghost predicate OneOwner(s: State) {
    && (s.owner == Main <==> MainHolds(s.main))
    && (s.owner.Worker? ==> s.owner.t < |s.threads|)
    && (forall t :: 0 <= t < |s.threads| ==> (Holds(s.threads[t]) <==> s.owner == Worker(t)))
  }

  /** c has been registered and has not taken itself out. */
  predicate Member(s: State, c: Tid) {
    c < |s.threads| && !Left(s.threads[c]) && !Pending(s, c)
  }

  /** The set holds exactly the threads that have not replaced themselves and are registered. */
  ghost predicate SetIsExact(s: State) {
    && (forall t: Tid :: t in s.ids <==> Member(s, t))
    && (forall t: Tid :: Pending(s, t) ==> t < |s.threads| && s.threads[t] == Wait(Context))
  }

  ghost predicate CountIsRight(s: State) {
    match s.main
    case BeforeStart => s.threads == [] && s.ids == {}
    case Starting(i) => i <= s.n && |s.ids| == i
    case StartingCreated(i, _) => i < s.n && |s.ids| == i
    case _ => |s.ids| + (if Short(s) then 1 else 0) == s.n
  }

  ghost predicate FlagIsRight(s: State) {
    && (s.flag <==> s.main.Flagged? || s.main.Stopping? || s.main.Snapshotting? || s.main.Copied? || s.main.Snapped?)
    && (s.flag ==> forall t :: 0 <= t < |s.threads| ==> s.threads[t] != Read(false))
    && (s.main.Copied? ==> |s.main.snapshot| == s.n)
    && (s.main.Snapped? ==> |s.main.snapshot| == s.n)
  }

  /** Until the lock is released, the snapshot is the set. */
  ghost predicate CopyIsRight(s: State) {
    s.main.Copied? ==> s.main.snapshot == s.ids
  }

  ghost predicate Inv(s: State) {
    OneOwner(s) && SetIsExact(s) && CountIsRight(s) && FlagIsRight(s) && CopyIsRight(s)
  }

  // ---- every step keeps the invariant --------------------------------------------

  /**
   What a step of worker t leaves alone: everything but t, its own hold on the
   mutex, a thread appended in front of its first lock, and the set under the lock.
   */
  ghost predicate Moved(s: State, t: Tid, u: State) {
    && t < |s.threads| && t < |u.threads| && u.n == s.n && u.flag == s.flag && u.main == s.main
    && u.threads == s.threads[t := u.threads[t]] + (if s.threads[t].Removed? then [Wait(Context)] else [])
    && (u.owner == s.owner || ((s.owner == Free || s.owner == Worker(t)) && (u.owner == Free || u.owner == Worker(t))))
    && (Holds(u.threads[t]) <==> u.owner == Worker(t))
    && (s.owner != Worker(t) ==> u.ids == s.ids)
    && (s.flag ==> u.threads[t] != Read(false))
  }

  lemma WorkerMoves(s: State, t: Tid, respawn: bool)
    requires t < |s.threads| && (Holds(s.threads[t]) <==> s.owner == Worker(t)) && StepWorker(s, t, respawn).Some?
    requires s.flag ==> s.threads[t] != Read(false)
    ensures Moved(s, t, StepWorker(s, t, respawn).value)
  {
  }

  lemma MovedKeepsOneOwner(s: State, t: Tid, u: State)
    requires OneOwner(s) && Moved(s, t, u)
    ensures OneOwner(u)
  {
    forall k | 0 <= k < |u.threads| ensures Holds(u.threads[k]) <==> u.owner == Worker(k) {
      if k != t && k < |s.threads| { assert u.threads[k] == s.threads[k]; }
    }
  }

  lemma MovedKeepsFlag(s: State, t: Tid, u: State)
    requires FlagIsRight(s) && CopyIsRight(s) && OneOwner(s) && Moved(s, t, u)
    ensures FlagIsRight(u) && CopyIsRight(u)
  {
    forall k | u.flag && 0 <= k < |u.threads| ensures u.threads[k] != Read(false) {
      if k != t && k < |s.threads| { assert u.threads[k] == s.threads[k]; }
    }
  }

  lemma WorkerCreates(s: State, t: Tid, respawn: bool, c: Tid)
    requires t < |s.threads| && StepWorker(s, t, respawn).Some?
    ensures s.threads[t].Wait? ==> s.owner == Free
    ensures StepWorker(s, t, respawn).value.threads[t] == Created(c) <==> s.threads[t].Removed? && c == |s.threads|
  {
  }

  lemma WorkerKeepsPending(s: State, t: Tid, respawn: bool, c: Tid)
    requires Inv(s) && t < |s.threads| && StepWorker(s, t, respawn).Some?
    requires Pending(StepWorker(s, t, respawn).value, c)
    ensures s.threads[t].Removed? ==> c == |s.threads|
    ensures !s.threads[t].Removed? ==> Pending(s, c) && c != t
  {
    hide StepWorker;
    var u := StepWorker(s, t, respawn).value;
    WorkerMoves(s, t, respawn);
    WorkerCreates(s, t, respawn, c);
    if u.owner.Worker? && u.owner.t != t && u.owner.t < |s.threads| {
      assert u.threads[u.owner.t] == s.threads[u.owner.t];
    }
    assert Pending(s, c) ==> c < |s.threads| && s.threads[c] == Wait(Context);
  }

  /** The three steps that touch the set or the list of threads. */
  predicate Registers(pc: Pc) {
    pc == In(Respawn) || pc.Removed? || pc.Created?
  }

  lemma QuietKeepsMember(s: State, t: Tid, respawn: bool, c: Tid)
    requires Inv(s) && t < |s.threads| && !Registers(s.threads[t]) && StepWorker(s, t, respawn).Some?
    ensures var u := StepWorker(s, t, respawn).value; u.ids == s.ids && (Member(u, c) <==> Member(s, c))
  {
    var u := StepWorker(s, t, respawn).value;
    assert |u.threads| == |s.threads|;
    assert c < |s.threads| ==> (Left(u.threads[c]) <==> Left(s.threads[c]));
    if Pending(u, c) { WorkerKeepsPending(s, t, respawn, c); }
    if Pending(s, c) {
      assert s.owner == Main || (s.owner.Worker? && s.threads[s.owner.t].Created?);
      assert s.owner.Worker? ==> s.owner.t != t;
    }
  }

  lemma CreatingKeepsMember(s: State, t: Tid, respawn: bool, c: Tid)
    requires Inv(s) && t < |s.threads| && s.threads[t].Removed?
    ensures var u := StepWorker(s, t, respawn).value; c in u.ids <==> Member(u, c)
  {
    assert s.owner == Worker(t);
    assert c in s.ids <==> Member(s, c);
    assert !Member(s, |s.threads|);
  }

  lemma RegisteringKeepsMember(s: State, t: Tid, respawn: bool, c: Tid)
    requires Inv(s) && t < |s.threads| && Registers(s.threads[t]) && !s.threads[t].Removed?
    ensures var u := StepWorker(s, t, respawn).value; c in u.ids <==> Member(u, c)
  {
    assert s.owner == Worker(t);
    assert c in s.ids <==> Member(s, c);
    if s.threads[t].Created? { assert Pending(s, s.threads[t].child); }
  }

  lemma WorkerKeepsMember(s: State, t: Tid, respawn: bool, c: Tid)
    requires Inv(s) && t < |s.threads| && StepWorker(s, t, respawn).Some?
    ensures var u := StepWorker(s, t, respawn).value; c in u.ids <==> Member(u, c)
  {
    assert c in s.ids <==> Member(s, c);
    if s.threads[t].Removed? {
      CreatingKeepsMember(s, t, respawn, c);
    } else if Registers(s.threads[t]) {
      RegisteringKeepsMember(s, t, respawn, c);
    } else {
      QuietKeepsMember(s, t, respawn, c);
    }
  }

  lemma WorkerKeepsSet(s: State, t: Tid, respawn: bool)
    requires Inv(s) && t < |s.threads| && StepWorker(s, t, respawn).Some?
    ensures SetIsExact(StepWorker(s, t, respawn).value)
  {
    var u := StepWorker(s, t, respawn).value;
    forall c: Tid | Pending(u, c) ensures c < |u.threads| && u.threads[c] == Wait(Context) {
      WorkerKeepsPending(s, t, respawn, c);
    }
    forall c: Tid ensures c in u.ids <==> Member(u, c) {
      WorkerKeepsMember(s, t, respawn, c);
    }
  }

  lemma QuietKeepsCount(s: State, t: Tid, respawn: bool)
    requires Inv(s) && t < |s.threads| && !Registers(s.threads[t]) && StepWorker(s, t, respawn).Some?
    ensures CountIsRight(StepWorker(s, t, respawn).value)
  {
    var u := StepWorker(s, t, respawn).value;
    assert Holds(s.threads[t]) <==> s.owner == Worker(t);
    assert u.ids == s.ids && (Short(u) <==> Short(s)) && !s.main.BeforeStart?;
  }

  lemma RegisteringKeepsCount(s: State, t: Tid, respawn: bool)
    requires Inv(s) && t < |s.threads| && Registers(s.threads[t])
    ensures CountIsRight(StepWorker(s, t, respawn).value)
  {
    assert s.owner == Worker(t);
    match s.threads[t] {
      case In(_) => assert t in s.ids by { assert Member(s, t); }
      case Created(c) => assert c !in s.ids by { assert Pending(s, c); }
      case _ =>
    }
  }

  lemma WorkerKeepsInv(s: State, t: Tid, respawn: bool)
    requires Inv(s) && t < |s.threads| && StepWorker(s, t, respawn).Some?
    ensures Inv(StepWorker(s, t, respawn).value)
  {
    var u := StepWorker(s, t, respawn).value;
    WorkerMoves(s, t, respawn);
    MovedKeepsOneOwner(s, t, u);
    MovedKeepsFlag(s, t, u);
    WorkerKeepsSet(s, t, respawn);
    if Registers(s.threads[t]) { RegisteringKeepsCount(s, t, respawn); } else { QuietKeepsCount(s, t, respawn); }
  }

  /** The two steps of start that touch the list of threads or the set. */
  predicate StartsThread(s: State) {
    (s.main.Starting? && s.main.i < s.n) || s.main.StartingCreated?
  }

  lemma MainKeepsOneOwner(s: State)
    requires Inv(s) && StepMain(s).Some?
    ensures OneOwner(StepMain(s).value)
  {
    var u := StepMain(s).value;
    forall k | 0 <= k < |u.threads| ensures Holds(u.threads[k]) <==> u.owner == Worker(k) {
      if k < |s.threads| { assert u.threads[k] == s.threads[k]; }
    }
  }

  lemma QuietMainKeepsSet(s: State)
    requires Inv(s) && !StartsThread(s) && StepMain(s).Some?
    ensures SetIsExact(StepMain(s).value)
  {
    var u := StepMain(s).value;
    assert u.threads == s.threads && u.ids == s.ids;
    forall c: Tid ensures !Pending(s, c) && !Pending(u, c) {}
    forall c: Tid ensures c in u.ids <==> Member(u, c) { assert c in s.ids <==> Member(s, c); }
  }

  lemma CreatingKeepsSet(s: State)
    requires Inv(s) && s.main.Starting? && s.main.i < s.n
    ensures SetIsExact(StepMain(s).value)
  {
    var u := StepMain(s).value;
    assert s.owner == Main;
    forall c: Tid ensures !Pending(s, c) && (Pending(u, c) <==> c == |s.threads|) {}
    forall c: Tid ensures c in u.ids <==> Member(u, c) { assert c in s.ids <==> Member(s, c); }
  }

  lemma RegisteringChildKeepsSet(s: State)
    requires Inv(s) && s.main.StartingCreated?
    ensures SetIsExact(StepMain(s).value) && s.main.child !in s.ids
  {
    var u := StepMain(s).value;
    assert s.owner == Main && Pending(s, s.main.child);
    forall c: Tid ensures !Pending(u, c) && (Pending(s, c) <==> c == s.main.child) {}
    forall c: Tid ensures c in u.ids <==> Member(u, c) { assert c in s.ids <==> Member(s, c); }
  }

  lemma MainKeepsSet(s: State)
    requires Inv(s) && StepMain(s).Some?
    ensures SetIsExact(StepMain(s).value)
  {
    if s.main.StartingCreated? {
      RegisteringChildKeepsSet(s);
    } else if StartsThread(s) {
      CreatingKeepsSet(s);
    } else {
      QuietMainKeepsSet(s);
    }
  }

  lemma MainKeepsCount(s: State)
    requires Inv(s) && StepMain(s).Some?
    ensures CountIsRight(StepMain(s).value) && FlagIsRight(StepMain(s).value) && CopyIsRight(StepMain(s).value)
  {
    if s.main.StartingCreated? { RegisteringChildKeepsSet(s); }
    if s.main.Flagging? {
      forall k | 0 <= k < |s.threads| ensures s.threads[k] != Read(false) { assert !Holds(s.threads[k]); }
    }
  }

  lemma StepKeepsInv(s: State, l: Label)
    requires Inv(s) && Step(s, l).Some?
    ensures Inv(Step(s, l).value)
  {
    if l.MainStep? {
      MainKeepsOneOwner(s);
      MainKeepsSet(s);
      MainKeepsCount(s);
    } else {
      WorkerKeepsInv(s, l.t, l.respawn);
    }
  }

  lemma {:induction false} ExecKeepsInv(s: State, ls: seq<Label>)
    requires Inv(s) && Exec(s, ls).Some?
    ensures Inv(Exec(s, ls).value)
    decreases ls
  {
    if ls != [] {
      StepKeepsInv(s, ls[0]);
      ExecKeepsInv(Step(s, ls[0]).value, ls[1..]);
    }
  }

  lemma {:induction false} ExecAppends(s: State, a: seq<Label>, b: seq<Label>)
    requires Exec(s, a).Some?
    ensures Exec(s, a + b) == Exec(Exec(s, a).value, b)
    decreases a
  {
    hide Step;
    if a == [] {
      assert a + b == b;
    } else {
      ExecAppends(Step(s, a[0]).value, a[1..], b);
      assert (a + b)[1..] == a[1..] + b;
    }
  }

  lemma ReachableStep(n: nat, s: State, l: Label)
    requires Reachable(n, s) && Step(s, l).Some?
    ensures Reachable(n, Step(s, l).value)
  {
    var ls :| Exec(Init(n), ls) == Some(s);
    ExecAppends(Init(n), ls, [l]);
    assert Exec(s, [l]) == Exec(Step(s, l).value, []);
    assert Exec(Init(n), ls + [l]) == Some(Step(s, l).value);
  }

  lemma ReachableInv(n: nat, s: State)
    requires Reachable(n, s)
    ensures Inv(s) && s.n == n
  {
    var ls :| Exec(Init(n), ls) == Some(s);
    ExecKeepsInv(Init(n), ls);
    SameN(Init(n), ls);
  }

  lemma {:induction false} SameN(s: State, ls: seq<Label>)
    requires Exec(s, ls).Some?
    ensures Exec(s, ls).value.n == s.n
    decreases ls
  {
    if ls != [] { SameN(Step(s, ls[0]).value, ls[1..]); }
  }

  /**
   In every reachable state: only one thread is inside a locked region; a thread
   about to remove itself finds its id; the snapshot has n members; and once start
   has returned, whenever the mutex is free the set has n members and is exactly
   the threads that have not replaced themselves.
   */
  lemma SetInvariant(n: nat, s: State)
    requires Reachable(n, s)
    ensures forall t, u ::
      0 <= t < |s.threads| && 0 <= u < |s.threads| && Holds(s.threads[t]) && Holds(s.threads[u]) ==> t == u
    ensures forall t :: 0 <= t < |s.threads| && s.threads[t] == In(Respawn) ==> t in s.ids
    ensures s.main.Copied? || s.main.Snapped? ==> |s.main.snapshot| == n
    ensures Begun(s.main) && s.owner == Free ==>
      |s.ids| == n && forall t: Tid :: t in s.ids <==> t < |s.threads| && !Left(s.threads[t])
  {
    ReachableInv(n, s);
    forall t | 0 <= t < |s.threads| && s.threads[t] == In(Respawn) ensures t in s.ids {
      assert s.owner == Worker(t) && Member(s, t);
    }
    if s.owner == Free { assert forall t: Tid :: !Pending(s, t); }
  }

  /** A child cannot take its first lock before its parent has registered it. */
  lemma ChildWaitsForRegistration(n: nat, s: State, c: Tid, respawn: bool)
    requires Reachable(n, s) && Pending(s, c)
    ensures c < |s.threads| && s.threads[c] == Wait(Context) && StepWorker(s, c, respawn) == None
  {
    ReachableInv(n, s);
  }

  // ---- shutting down ---------------------------------------------------------------

  /** The thread may still create a replacement without reading the flag again. */
  predicate MaySpawn(pc: Pc) {
    pc == Read(false) || pc.Choosing? || pc == Wait(Respawn) || pc == In(Respawn) || pc.Removed?
  }

  function Spawners(s: State): set<Tid> {
    set t: Tid | t < |s.threads| && MaySpawn(s.threads[t])
  }

  lemma SubsetSize<T>(a: set<T>, b: set<T>)
    requires a <= b
    ensures |a| <= |b|
  {
    assert b == a + (b - a);
  }

  lemma SpawnersAreFew(s: State)
    requires Inv(s) && s.flag
    ensures |Spawners(s)| <= s.n
  {
    var a := Spawners(s);
    forall t | t in a && !(Short(s) && s.owner == Worker(t)) ensures t in s.ids {
      assert Member(s, t);
    }
    if Short(s) {
      SubsetSize(a, s.ids + {s.owner.t});
    } else {
      SubsetSize(a, s.ids);
    }
  }

  /** Once the flag is set, a worker's step makes nobody a spawner, and the step that creates a thread unmakes one. */
  lemma FlaggedWorker(s: State, t: Tid, respawn: bool)
    requires s.flag && t < |s.threads| && StepWorker(s, t, respawn).Some?
    requires s.threads[t] != Read(false)
    ensures var q := StepWorker(s, t, respawn).value.threads[t];
      && (MaySpawn(q) ==> MaySpawn(s.threads[t])) && (Left(q) ==> Left(s.threads[t]) || MaySpawn(s.threads[t]))
      && (s.threads[t].Removed? ==> MaySpawn(s.threads[t]) && !MaySpawn(q))
  {
  }

  lemma MovedSpawners(s: State, t: Tid, u: State)
    requires Moved(s, t, u) && (MaySpawn(u.threads[t]) ==> MaySpawn(s.threads[t]))
    requires s.threads[t].Removed? ==> MaySpawn(s.threads[t]) && !MaySpawn(u.threads[t])
    ensures Spawners(u) <= Spawners(s)
    ensures |u.threads| + |Spawners(u)| <= |s.threads| + |Spawners(s)|
  {
    forall c | c in Spawners(u) ensures c in Spawners(s) {
      if c != t && c < |s.threads| { assert u.threads[c] == s.threads[c]; }
    }
    SubsetSize(Spawners(u), Spawners(s));
    if s.threads[t].Removed? {
      assert t in Spawners(s) && t !in Spawners(u);
      SubsetSize(Spawners(u), Spawners(s) - {t});
    }
  }

  lemma FlaggedMain(s: State)
    requires Inv(s) && s.flag && StepMain(s).Some?
    ensures var u := StepMain(s).value; u.flag && u.threads == s.threads
  {
  }

  /** Once the flag is set, a step that creates a thread uses up a spawner and no step makes one. */
  lemma FlaggedStep(s: State, l: Label)
    requires Inv(s) && s.flag && Step(s, l).Some?
    ensures var u := Step(s, l).value;
      && u.flag && Spawners(u) <= Spawners(s)
      && |s.threads| <= |u.threads| && |u.threads| + |Spawners(u)| <= |s.threads| + |Spawners(s)|
      && forall t :: |s.threads| <= t < |u.threads| ==> u.threads[t] == Wait(Context)
  {
    if l.WorkerStep? {
      WorkerMoves(s, l.t, l.respawn);
      FlaggedWorker(s, l.t, l.respawn);
      MovedSpawners(s, l.t, Step(s, l).value);
    } else {
      FlaggedMain(s);
    }
  }

  /** Threads numbered m and above neither replace themselves nor may still do so. */
  ghost predicate Tame(s: State, m: nat) {
    forall t :: m <= t < |s.threads| ==> !MaySpawn(s.threads[t]) && !Left(s.threads[t])
  }

  lemma MovedStaysTame(s: State, t: Tid, u: State, m: nat)
    requires Moved(s, t, u) && Tame(s, m)
    requires MaySpawn(u.threads[t]) ==> MaySpawn(s.threads[t])
    requires Left(u.threads[t]) ==> Left(s.threads[t]) || MaySpawn(s.threads[t])
    ensures Tame(u, m)
  {
    forall c | m <= c < |u.threads| ensures !MaySpawn(u.threads[c]) && !Left(u.threads[c]) {
      if c != t && c < |s.threads| { assert u.threads[c] == s.threads[c]; }
    }
  }

  lemma TameStep(s: State, l: Label, m: nat)
    requires Inv(s) && s.flag && Step(s, l).Some? && Tame(s, m)
    ensures Tame(Step(s, l).value, m)
  {
    if l.WorkerStep? {
      WorkerMoves(s, l.t, l.respawn);
      FlaggedWorker(s, l.t, l.respawn);
      MovedStaysTame(s, l.t, Step(s, l).value, m);
    } else {
      FlaggedMain(s);
    }
  }

  lemma {:induction false} FlaggedRun(s: State, ls: seq<Label>, m: nat)
    requires Inv(s) && s.flag && Exec(s, ls).Some? && Tame(s, m)
    ensures var u := Exec(s, ls).value;
      Tame(u, m) && |s.threads| <= |u.threads| && |u.threads| + |Spawners(u)| <= |s.threads| + |Spawners(s)|
    decreases ls
  {
    if ls != [] {
      StepKeepsInv(s, ls[0]);
      FlaggedStep(s, ls[0]);
      TameStep(s, ls[0], m);
      FlaggedRun(Step(s, ls[0]).value, ls[1..], m);
    }
  }

  /** After the flag is set at most n threads are ever created, and none of them replaces itself. */
  lemma ShutdownBound(n: nat, s: State, ls: seq<Label>)
    requires Reachable(n, s) && s.flag && Exec(s, ls).Some?
    ensures var u := Exec(s, ls).value;
      && |u.threads| - |s.threads| <= |Spawners(s)| <= n
      && forall t :: |s.threads| <= t < |u.threads| ==> !Left(u.threads[t]) && !MaySpawn(u.threads[t])
  {
    ReachableInv(n, s);
    SpawnersAreFew(s);
    FlaggedRun(s, ls, |s.threads|);
  }

  // ---- progress and termination ----------------------------------------------------------

  /** The mutex never locks everyone out: its holder can step, and when it is free every unfinished worker can. */
  lemma Progress(n: nat, s: State, t: Tid)
    requires Reachable(n, s) && t < |s.threads| && !s.threads[t].Done?
    ensures s.owner == Main ==> StepMain(s).Some?
    ensures s.owner.Worker? ==> s.owner.t < |s.threads| && StepWorker(s, s.owner.t, true).Some?
    ensures s.owner == Free ==> StepWorker(s, t, true).Some?
  {
    ReachableInv(n, s);
    if s.owner.Worker? { assert Holds(s.threads[s.owner.t]); }
  }

  /** How many steps a thread and its possible replacement still have, once the flag is set. */
  function Rank(pc: Pc): nat {
    match pc
    case Wait(Context) => 13
    case In(Context) => 12
    case Wait(Text) => 11
    case In(Text) => 10
    case Wait(Eval) => 9
    case In(Eval) => 8
    case Wait(Alloc) => 7
    case In(Alloc) => 6
    case Wait(Check) => 5
    case In(Check) => 4
    case Read(stop) => if stop then 3 else 22
    case Wait(Cleanup(_)) => 2
    case In(Cleanup(_)) => 1
    case Done(_) => 0
    case Choosing => 21
    case Wait(Respawn) => 20
    case In(Respawn) => 19
    case Removed => 18
    case Created(_) => 4
    case Added => 3
  }

  function Total(ts: seq<Pc>): nat {
    if ts == [] then 0 else Total(ts[..|ts| - 1]) + Rank(ts[|ts| - 1])
  }

  function MainRank(m: MainPc): nat {
    match m
    case Flagged => 5
    case Stopping => 4
    case Snapshotting => 3
    case Copied(_) => 2
    case Snapped(_) => 1
    case _ => 0
  }

  lemma {:induction false} TotalUpdate(ts: seq<Pc>, t: nat, pc: Pc)
    requires t < |ts|
    ensures Total(ts[t := pc]) == Total(ts) - Rank(ts[t]) + Rank(pc)
  {
    var n := |ts| - 1;
    if t < n {
      TotalUpdate(ts[..n], t, pc);
      assert ts[t := pc][..n] == ts[..n][t := pc];
    } else {
      assert ts[t := pc][..n] == ts[..n];
    }
  }

  lemma TotalAppend(ts: seq<Pc>, pc: Pc)
    ensures Total(ts + [pc]) == Total(ts) + Rank(pc)
  {
    assert (ts + [pc])[..|ts|] == ts;
  }

  lemma WorkerUsesRank(s: State, t: Tid, respawn: bool)
    requires s.flag && t < |s.threads| && StepWorker(s, t, respawn).Some?
    requires s.threads[t] != Read(false)
    ensures var q := StepWorker(s, t, respawn).value.threads[t];
      Rank(q) + (if s.threads[t].Removed? then 13 else 0) < Rank(s.threads[t])
  {
  }

  lemma MovedTotal(s: State, t: Tid, u: State)
    requires Moved(s, t, u)
    ensures Total(u.threads) == Total(s.threads) - Rank(s.threads[t]) + Rank(u.threads[t])
      + (if s.threads[t].Removed? then 13 else 0)
  {
    TotalUpdate(s.threads, t, u.threads[t]);
    TotalAppend(s.threads[t := u.threads[t]], Wait(Context));
    assert s.threads[t := u.threads[t]] + [] == s.threads[t := u.threads[t]];
  }

  lemma FlaggedStepCounts(s: State, l: Label)
    requires Inv(s) && s.flag && Step(s, l).Some?
    ensures var u := Step(s, l).value;
      Total(u.threads) + MainRank(u.main) < Total(s.threads) + MainRank(s.main)
  {
    if l.WorkerStep? {
      WorkerMoves(s, l.t, l.respawn);
      WorkerUsesRank(s, l.t, l.respawn);
      MovedTotal(s, l.t, Step(s, l).value);
    } else {
      FlaggedMain(s);
    }
  }

  /** After the flag is set every schedule is finite, and bounded by the state alone. */
  lemma {:induction false} RemainingSteps(s: State, ls: seq<Label>)
    requires Inv(s) && s.flag && Exec(s, ls).Some?
    ensures |ls| <= Total(s.threads) + MainRank(s.main)
    decreases ls
  {
    if ls != [] {
      StepKeepsInv(s, ls[0]);
      FlaggedStep(s, ls[0]);
      FlaggedStepCounts(s, ls[0]);
      RemainingSteps(Step(s, ls[0]).value, ls[1..]);
    }
  }

  lemma {:induction false} TotalBound(ts: seq<Pc>)
    ensures Total(ts) <= 22 * |ts|
  {
    if ts != [] { TotalBound(ts[..|ts| - 1]); }
  }

  lemma HolderSteps(s: State)
    requires Inv(s) && s.owner.Worker?
    ensures Step(s, WorkerStep(s.owner.t, true)).Some?
  {
    assert Holds(s.threads[s.owner.t]);
  }

  /** Every schedule after the flag is set is at most this long; where it cannot go on all workers are done. */
  lemma EveryScheduleEnds(n: nat, s: State, ls: seq<Label>)
    requires Reachable(n, s) && s.flag && Exec(s, ls).Some?
    ensures |ls| <= 22 * |s.threads| + 5
    ensures var u := Exec(s, ls).value;
      (forall l :: Step(u, l) == None) ==>
        u.main.Snapped? && forall t :: 0 <= t < |u.threads| ==> u.threads[t].Done?
  {
    ReachableInv(n, s);
    RemainingSteps(s, ls);
    TotalBound(s.threads);
    var u := Exec(s, ls).value;
    ExecKeepsInv(s, ls);
    FlagStays(s, ls);
    if forall l :: Step(u, l) == None {
      assert Step(u, MainStep) == None;
      if u.owner.Worker? {
        HolderSteps(u);
        assert false;
      }
      forall t | 0 <= t < |u.threads| ensures u.threads[t].Done? {
        assert Step(u, WorkerStep(t, true)) == None;
      }
    }
  }

  lemma {:induction false} FlagStays(s: State, ls: seq<Label>)
    requires Inv(s) && s.flag && Exec(s, ls).Some?
    ensures Exec(s, ls).value.flag
    decreases ls
  {
    if ls != [] {
      StepKeepsInv(s, ls[0]);
      FlagStays(Step(s, ls[0]).value, ls[1..]);
    }
  }

  // ---- what the snapshot can miss -----------------------------------------------------------

  /** While a spawner is left, some step creates a thread or keeps every spawner. */
  lemma SpawningStep(s: State) returns (l: Label)
    requires Inv(s) && s.flag && Spawners(s) != {}
    ensures Step(s, l).Some?
    ensures var u := Step(s, l).value; |u.threads| > |s.threads| || Spawners(s) <= Spawners(u)
  {
    if s.owner == Main {
      l := MainStep;
    } else if s.owner.Worker? {
      HolderSteps(s);
      l := WorkerStep(s.owner.t, true);
    } else {
      var t :| t in Spawners(s);
      l := WorkerStep(t, true);
    }
  }

  lemma SpawningStepLeads(s: State) returns (l: Label, u: State)
    requires Inv(s) && s.flag && Spawners(s) != {}
    ensures Step(s, l) == Some(u) && Inv(u) && u.flag && |s.threads| <= |u.threads|
    ensures |u.threads| > |s.threads| ==> u.threads[|u.threads| - 1] == Wait(Context)
    ensures |u.threads| == |s.threads| ==> Spawners(u) != {}
    ensures Total(u.threads) + MainRank(u.main) < Total(s.threads) + MainRank(s.main)
  {
    l := SpawningStep(s);
    u := Step(s, l).value;
    StepKeepsInv(s, l);
    FlaggedStep(s, l);
    FlaggedStepCounts(s, l);
  }

  lemma ExecNothing(s: State)
    ensures Exec(s, []) == Some(s)
  {
  }

  lemma ExecCons(s: State, l: Label, u: State, rest: seq<Label>)
    requires Step(s, l) == Some(u)
    ensures Exec(s, [l] + rest) == Exec(u, rest)
  {
    assert ([l] + rest)[1..] == rest;
  }

  /** From any flagged state with a spawner: a schedule that ends with the creation of one more thread. */
  lemma {:induction false} SomeScheduleSpawns(s: State) returns (ls: seq<Label>, v: State)
    requires Inv(s) && s.flag && Spawners(s) != {}
    ensures Exec(s, ls) == Some(v) && |v.threads| > |s.threads| && v.threads[|v.threads| - 1] == Wait(Context)
    decreases Total(s.threads) + MainRank(s.main)
  {
    hide *;
    var l, u := SpawningStepLeads(s);
    ls, v := [], u;
    assert Exec(u, []) == Some(u) by { ExecNothing(u); }
    if |u.threads| == |s.threads| { ls, v := SomeScheduleSpawns(u); }
    ExecCons(s, l, u, ls);
    ls := [l] + ls;
  }

  /** Once the flag is set, another thread can be created exactly when a worker is past its check and unspawned. */
  lemma SpawnsIffPastCheck(n: nat, s: State)
    requires Reachable(n, s) && s.flag
    ensures (exists ls :: Exec(s, ls).Some? && |Exec(s, ls).value.threads| > |s.threads|) <==> Spawners(s) != {}
  {
    ReachableInv(n, s);
    if Spawners(s) != {} {
      var ls, _ := SomeScheduleSpawns(s);
    }
    forall ls | Exec(s, ls).Some? && |Exec(s, ls).value.threads| > |s.threads| ensures Spawners(s) != {} {
      FlaggedRun(s, ls, |s.threads|);
    }
  }

  lemma Go(s: State, l: Label) returns (u: State)
    requires Reachable(1, s) && Step(s, l).Some?
    ensures u == Step(s, l).value && Reachable(1, u)
  {
    ReachableStep(1, s, l);
    u := Step(s, l).value;
  }

  lemma OneWorkerStarts() returns (s: State)
    ensures s == State(1, Free, false, {0}, [Wait(Context)], Running) && Reachable(1, s)
  {
    s := Init(1);
    assert Exec(Init(1), []) == Some(s);
    s := Go(s, MainStep);
    s := Go(s, MainStep);
    s := Go(s, MainStep);
    s := Go(s, MainStep);
  }

  lemma OneWorkerPassesItsCheck() returns (s: State)
    ensures s == State(1, Free, false, {0}, [Choosing], Running) && Reachable(1, s)
  {
    s := OneWorkerStarts();
    var w := WorkerStep(0, true);
    s := Go(s, w);
    s := Go(s, w);
    s := Go(s, w);
    s := Go(s, w);
    s := Go(s, w);
    s := Go(s, w);
    assert s == State(1, Free, false, {0}, [Wait(Alloc)], Running);
    s := Go(s, w);
    s := Go(s, w);
    s := Go(s, w);
    s := Go(s, w);
    s := Go(s, w);
  }

  /** Whatever happens after the snapshot, every thread that is not in it is done. */
  ghost predicate SnapshotCoversAll(s: State, snapshot: set<Tid>) {
    forall ls :: Exec(s, ls).Some? ==> Covers(Exec(s, ls).value, snapshot)
  }

  ghost predicate Covers(u: State, snapshot: set<Tid>) {
    forall t: Tid :: t < |u.threads| ==> u.threads[t].Done? || t in snapshot
  }

  /** Every thread that has replaced itself has also finished. */
  ghost predicate LeaversAreDone(s: State) {
    forall t :: 0 <= t < |s.threads| && Left(s.threads[t]) ==> s.threads[t].Done?
  }

  lemma DoneStays(s: State, l: Label, t: Tid)
    requires Inv(s) && Step(s, l).Some? && t < |s.threads| && s.threads[t].Done?
    ensures var u := Step(s, l).value; t < |u.threads| && u.threads[t] == s.threads[t]
  {
    if l.WorkerStep? { WorkerMoves(s, l.t, l.respawn); }
  }

  lemma {:induction false} DoneForever(s: State, ls: seq<Label>, t: Tid)
    requires Inv(s) && Exec(s, ls).Some? && t < |s.threads| && s.threads[t].Done?
    ensures var u := Exec(s, ls).value; t < |u.threads| && u.threads[t].Done?
    decreases ls
  {
    if ls != [] {
      StepKeepsInv(s, ls[0]);
      DoneStays(s, ls[0], t);
      DoneForever(Step(s, ls[0]).value, ls[1..], t);
    }
  }

  /** At the snapshot, the threads outside it are those that have replaced themselves. */
  lemma OutsideTheSnapshot(s: State, t: Tid)
    requires Inv(s) && s.main.Copied?
    ensures t in s.main.snapshot <==> t < |s.threads| && !Left(s.threads[t])
  {
    assert !Pending(s, t);
    assert t in s.ids <==> Member(s, t);
  }

  lemma CoveredIfQuiet(s: State, ls: seq<Label>)
    requires Inv(s) && s.flag && s.main.Copied? && Spawners(s) == {} && LeaversAreDone(s) && Exec(s, ls).Some?
    ensures Covers(Exec(s, ls).value, s.main.snapshot)
  {
    var u := Exec(s, ls).value;
    FlaggedRun(s, ls, |s.threads|);
    forall t: Tid | t < |u.threads| ensures u.threads[t].Done? || t in s.main.snapshot {
      OutsideTheSnapshot(s, t);
      if Left(s.threads[t]) { DoneForever(s, ls, t); }
    }
  }

  lemma UncoveringSchedule(s: State) returns (ls: seq<Label>)
    requires Inv(s) && s.flag && s.main.Copied? && Spawners(s) != {}
    ensures Exec(s, ls).Some? && !Covers(Exec(s, ls).value, s.main.snapshot)
  {
    var u;
    ls, u := SomeScheduleSpawns(s);
    OutsideTheSnapshot(s, |u.threads| - 1);
    assert u.threads[|u.threads| - 1] == Wait(Context);
  }

  lemma QuietIfCovered(s: State)
    requires Inv(s) && s.flag && s.main.Copied? && SnapshotCoversAll(s, s.main.snapshot)
    ensures Spawners(s) == {} && LeaversAreDone(s)
  {
    assert Exec(s, []) == Some(s);
    assert Covers(s, s.main.snapshot);
    forall t | 0 <= t < |s.threads| && Left(s.threads[t]) ensures s.threads[t].Done? { OutsideTheSnapshot(s, t); }
    if Spawners(s) != {} {
      var ls := UncoveringSchedule(s);
    }
  }

  /** Exactly when no thread outside the snapshot is ever unfinished. */
  lemma SnapshotCoversAllIff(n: nat, s: State)
    requires Reachable(n, s) && s.main.Copied?
    ensures SnapshotCoversAll(s, s.main.snapshot) <==> Spawners(s) == {} && LeaversAreDone(s)
  {
    ReachableInv(n, s);
    if Spawners(s) == {} && LeaversAreDone(s) {
      forall ls | Exec(s, ls).Some? ensures Covers(Exec(s, ls).value, s.main.snapshot) { CoveredIfQuiet(s, ls); }
    }
    if SnapshotCoversAll(s, s.main.snapshot) { QuietIfCovered(s); }
  }

  // ---- what joining the snapshot waits for ----------------------------------------------------

  ghost predicate AllDone(u: State) {
    forall t :: 0 <= t < |u.threads| ==> u.threads[t].Done?
  }

  /** All threads but x are done. */
  ghost predicate OthersDone(s: State, x: Tid) {
    forall t :: 0 <= t < |s.threads| && t != x ==> s.threads[t].Done?
  }

  /** Once every thread of the snapshot is done, every thread is, whatever the schedule. */
  ghost predicate JoiningIsEnough(s: State, snapshot: set<Tid>) {
    forall ls :: Exec(s, ls).Some? && SnapshotDone(Exec(s, ls).value, snapshot) ==> AllDone(Exec(s, ls).value)
  }

  ghost predicate SnapshotDone(u: State, snapshot: set<Tid>) {
    forall t: Tid :: t in snapshot ==> t < |u.threads| && u.threads[t].Done?
  }

  /** A step of somebody else than x, who waits for a lock, while somebody else is not done. */
  lemma OtherCanStep(s: State, x: Tid) returns (l: Label)
    requires Inv(s) && x < |s.threads| && s.threads[x].Wait? && !OthersDone(s, x)
    ensures Step(s, l).Some? && (l.WorkerStep? ==> l.t != x)
  {
    if s.owner == Main {
      l := MainStep;
    } else if s.owner.Worker? {
      HolderSteps(s);
      assert Holds(s.threads[s.owner.t]);
      l := WorkerStep(s.owner.t, true);
    } else {
      var t :| 0 <= t < |s.threads| && t != x && !s.threads[t].Done?;
      assert !Holds(s.threads[t]);
      l := WorkerStep(t, true);
    }
  }

  lemma OtherStep(s: State, x: Tid) returns (l: Label, u: State)
    requires Inv(s) && s.flag && x < |s.threads| && s.threads[x].Wait? && !OthersDone(s, x)
    ensures Step(s, l) == Some(u) && Inv(u) && u.flag && x < |u.threads| && u.threads[x] == s.threads[x]
    ensures Total(u.threads) + MainRank(u.main) < Total(s.threads) + MainRank(s.main)
  {
    l := OtherCanStep(s, x);
    u := Step(s, l).value;
    StepKeepsInv(s, l);
    FlaggedStep(s, l);
    FlaggedStepCounts(s, l);
    if l.WorkerStep? { WorkerMoves(s, l.t, l.respawn); } else { FlaggedMain(s); }
  }

  /** A schedule that finishes all other threads and never moves x. */
  lemma {:induction false} FinishOthers(s: State, x: Tid) returns (ls: seq<Label>, v: State)
    requires Inv(s) && s.flag && x < |s.threads| && s.threads[x].Wait?
    ensures Exec(s, ls) == Some(v) && x < |v.threads| && v.threads[x] == s.threads[x] && OthersDone(v, x)
    decreases Total(s.threads) + MainRank(s.main)
  {
    hide *;
    ls, v := [], s;
    if OthersDone(s, x) {
      ExecNothing(s);
    } else {
      var l, u := OtherStep(s, x);
      ls, v := FinishOthers(u, x);
      ExecCons(s, l, u, ls);
      ls := [l] + ls;
    }
  }

  /** x, outside the snapshot, is left waiting while all threads of the snapshot finish. */
  lemma LeavesOneBehind(s: State, u: State, first: seq<Label>, snapshot: set<Tid>, x: Tid)
    requires Exec(s, first) == Some(u) && Inv(u) && u.flag && x < |u.threads| && u.threads[x].Wait? && x !in snapshot
    requires forall t: Tid :: t in snapshot ==> t < |u.threads|
    ensures !JoiningIsEnough(s, snapshot)
  {
    var rest, v := FinishOthers(u, x);
    hide Inv, Exec;
    ExecAppends(s, first, rest);
    ThreadsStay(u, rest);
    assert SnapshotDone(v, snapshot) && !AllDone(v);
    assert Exec(s, first + rest) == Some(v);
  }

  lemma ThreadsStay(s: State, ls: seq<Label>)
    requires Inv(s) && s.flag && Exec(s, ls).Some?
    ensures |s.threads| <= |Exec(s, ls).value.threads|
  {
    FlaggedRun(s, ls, |s.threads|);
  }

  lemma LeaverIsLeftBehind(s: State, x: Tid)
    requires Inv(s) && s.flag && s.main.Copied? && x < |s.threads| && Left(s.threads[x]) && !s.threads[x].Done?
    ensures !JoiningIsEnough(s, s.main.snapshot)
  {
    assert !Holds(s.threads[x]);
    forall t: Tid ensures t in s.main.snapshot <==> t < |s.threads| && !Left(s.threads[t]) { OutsideTheSnapshot(s, t); }
    ExecNothing(s);
    LeavesOneBehind(s, s, [], s.main.snapshot, x);
  }

  lemma SpawnedIsLeftBehind(s: State)
    requires Inv(s) && s.flag && s.main.Copied? && Spawners(s) != {}
    ensures !JoiningIsEnough(s, s.main.snapshot)
  {
    var ls, u := SomeScheduleSpawns(s);
    forall t: Tid ensures t in s.main.snapshot <==> t < |s.threads| && !Left(s.threads[t]) { OutsideTheSnapshot(s, t); }
    ExecKeepsInv(s, ls);
    FlagStays(s, ls);
    LeavesOneBehind(s, u, ls, s.main.snapshot, |u.threads| - 1);
  }

  lemma JoiningIsEnoughIfQuiet(s: State, ls: seq<Label>)
    requires Inv(s) && s.flag && s.main.Copied? && Spawners(s) == {} && LeaversAreDone(s)
    requires Exec(s, ls).Some? && SnapshotDone(Exec(s, ls).value, s.main.snapshot)
    ensures AllDone(Exec(s, ls).value)
  {
    CoveredIfQuiet(s, ls);
  }

  /**
   Exactly when all threads are done once stop has joined those of its snapshot: at
   the snapshot no worker may be past its check without having replaced itself, and
   every worker that has replaced itself must have finished.
   */
  lemma JoiningIsEnoughIff(n: nat, s: State)
    requires Reachable(n, s) && s.main.Copied?
    ensures JoiningIsEnough(s, s.main.snapshot) <==> Spawners(s) == {} && LeaversAreDone(s)
  {
    ReachableInv(n, s);
    if Spawners(s) != {} {
      SpawnedIsLeftBehind(s);
    } else if !LeaversAreDone(s) {
      var x :| 0 <= x < |s.threads| && Left(s.threads[x]) && !s.threads[x].Done?;
      LeaverIsLeftBehind(s, x);
    } else {
      forall ls | Exec(s, ls).Some? && SnapshotDone(Exec(s, ls).value, s.main.snapshot)
        ensures AllDone(Exec(s, ls).value)
      {
        JoiningIsEnoughIfQuiet(s, ls);
      }
    }
  }

  /** So stop can miss a thread: with one worker, the snapshot can be taken while that worker may still respawn. */
  lemma SnapshotCanMissAThread() returns (s: State)
    ensures Reachable(1, s) && s.main.Snapped? && Spawners(s) == {0}
    ensures exists ls :: Exec(s, ls).Some? && 1 < |Exec(s, ls).value.threads|
  {
    s := OneWorkerPassesItsCheck();
    s := Go(s, MainStep);
    s := Go(s, MainStep);
    s := Go(s, MainStep);
    s := Go(s, MainStep);
    s := Go(s, MainStep);
    s := Go(s, MainStep);
    assert s == State(1, Free, true, {0}, [Choosing], Snapped({0}));
    assert 0 in Spawners(s);
    SpawnsIffPastCheck(1, s);
  }

  lemma OneWorkerIsReplaced() returns (s: State)
    ensures s == State(1, Free, false, {1}, [Wait(Cleanup(true)), Wait(Context)], Running) && Reachable(1, s)
  {
    s := OneWorkerPassesItsCheck();
    var w := WorkerStep(0, true);
    s := Go(s, w);
    s := Go(s, w);
    s := Go(s, w);
    s := Go(s, w);
    s := Go(s, w);
    s := Go(s, w);
  }

  /** It can also miss one without any further respawn: a worker that has replaced itself and has still to clean up. */
  lemma SnapshotCanMissALeaver() returns (s: State)
    ensures Reachable(1, s) && s.main == Copied({1}) && Spawners(s) == {}
    ensures s.threads == [Wait(Cleanup(true)), Wait(Context)]
    ensures !SnapshotCoversAll(s, s.main.snapshot) && !JoiningIsEnough(s, s.main.snapshot)
  {
    s := OneWorkerIsReplaced();
    s := Go(s, MainStep);
    s := Go(s, MainStep);
    s := Go(s, MainStep);
    s := Go(s, MainStep);
    s := Go(s, MainStep);
    assert s == State(1, Main, true, {1}, [Wait(Cleanup(true)), Wait(Context)], Copied({1}));
    assert Left(s.threads[0]) && !s.threads[0].Done?;
    SnapshotCoversAllIff(1, s);
    JoiningIsEnoughIff(1, s);
  }
}
