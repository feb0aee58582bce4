/**
 What single threads of JavaScriptThreading.cpp do: why they end, and which regions
 they pass, in which order, while no other thread runs.
 */
module ThreadRuns {
  import opened Options
  import opened Threads

  // ---- a worker ends because of the flag or because it has replaced itself -------------

  /** The thread is on its way out without having replaced itself. */
  predicate Quits(pc: Pc) {
    pc == Read(true) || pc == Wait(Cleanup(false)) || pc == In(Cleanup(false)) || pc == Done(false)
  }

  ghost predicate QuitsOnlyFlagged(s: State) {
    forall t :: 0 <= t < |s.threads| && Quits(s.threads[t]) ==> s.flag
  }

  lemma WorkerQuitsOnlyFlagged(s: State, t: Tid, respawn: bool)
    requires t < |s.threads| && StepWorker(s, t, respawn).Some? && (Quits(s.threads[t]) ==> s.flag)
    ensures Quits(StepWorker(s, t, respawn).value.threads[t]) ==> s.flag
  {
  }

  lemma MainKeepsQuitting(s: State)
    requires Inv(s) && StepMain(s).Some? && QuitsOnlyFlagged(s)
    ensures QuitsOnlyFlagged(StepMain(s).value)
  {
    var u := StepMain(s).value;
    forall c | 0 <= c < |u.threads| && Quits(u.threads[c]) ensures u.flag {
      if c < |s.threads| { assert u.threads[c] == s.threads[c]; }
    }
  }

  lemma StepKeepsQuitting(s: State, l: Label)
    requires Inv(s) && Step(s, l).Some? && QuitsOnlyFlagged(s)
    ensures QuitsOnlyFlagged(Step(s, l).value)
  {
    if l.MainStep? {
      MainKeepsQuitting(s);
    } else {
      var u := Step(s, l).value;
      WorkerMoves(s, l.t, l.respawn);
      WorkerQuitsOnlyFlagged(s, l.t, l.respawn);
      forall c | 0 <= c < |u.threads| && Quits(u.threads[c]) ensures u.flag {
        if c < |s.threads| && c != l.t { assert u.threads[c] == s.threads[c]; }
      }
    }
  }

  lemma {:induction false} ExecKeepsQuitting(s: State, ls: seq<Label>)
    requires Inv(s) && Exec(s, ls).Some? && QuitsOnlyFlagged(s)
    ensures QuitsOnlyFlagged(Exec(s, ls).value)
    decreases ls
  {
    if ls != [] {
      StepKeepsInv(s, ls[0]);
      StepKeepsQuitting(s, ls[0]);
      ExecKeepsQuitting(Step(s, ls[0]).value, ls[1..]);
    }
  }

  /** In every reachable state, a worker that ends without having replaced itself has seen the flag. */
  lemma EndsOnlyFlagged(n: nat, s: State, t: Tid)
    requires Reachable(n, s) && t < |s.threads|
    ensures s.threads[t] == Wait(Cleanup(false)) || s.threads[t] == In(Cleanup(false)) || s.threads[t] == Done(false)
      ==> s.flag
  {
    var ls :| Exec(Init(n), ls) == Some(s);
    ExecKeepsQuitting(Init(n), ls);
  }

  /**
   Until stop sets the flag, whenever the mutex is free exactly n workers are
   unfinished and not replaced, and they are the set.
   */
  lemma NWorkersUntilStop(n: nat, s: State)
    requires Reachable(n, s) && Begun(s.main) && s.owner == Free && !s.flag
    ensures |s.ids| == n
    ensures forall t: Tid :: t in s.ids <==> t < |s.threads| && !Left(s.threads[t]) && !s.threads[t].Done?
  {
    SetInvariant(n, s);
    forall t: Tid | t < |s.threads| && s.threads[t] == Done(false) ensures false { EndsOnlyFlagged(n, s, t); }
  }

  // ---- one thread alone -------------------------------------------------------------------

  function Times(l: Label, k: nat): seq<Label> { seq(k, _ => l) }

  lemma OneMore(s: State, l: Label, k: nat, u: State, v: State)
    requires Exec(s, Times(l, k)) == Some(u) && Step(u, l) == Some(v)
    ensures Exec(s, Times(l, k + 1)) == Some(v)
  {
    hide Step;
    assert Times(l, k + 1) == Times(l, k) + [l];
    ExecAppends(s, Times(l, k), [l]);
    assert [l] == [l] + [];
    ExecCons(u, l, v, []);
    ExecNothing(v);
  }

  /** s with thread t at pc, which holds the mutex when it is in a region. */
  function At(s: State, t: Tid, pc: Pc): State
    requires t < |s.threads|
  {
    s.(owner := if Holds(pc) then Worker(t) else Free, threads := s.threads[t := pc])
  }

  /** The program counters of t, one step after the other, while only t runs. */
  ghost predicate Passes(s: State, t: Tid, respawn: bool, path: seq<Pc>)
    requires t < |s.threads|
  {
    forall k :: 0 <= k < |path| ==> Exec(s, Times(WorkerStep(t, respawn), k)) == Some(At(s, t, path[k]))
  }

  lemma PassesMore(s: State, t: Tid, respawn: bool, path: seq<Pc>, next: Pc)
    requires t < |s.threads| && path != [] && Passes(s, t, respawn, path)
    requires Step(At(s, t, path[|path| - 1]), WorkerStep(t, respawn)) == Some(At(s, t, next))
    ensures Passes(s, t, respawn, path + [next])
  {
    var w := WorkerStep(t, respawn);
    OneMore(s, w, |path| - 1, At(s, t, path[|path| - 1]), At(s, t, next));
    forall k | 0 <= k < |path + [next]| ensures Exec(s, Times(w, k)) == Some(At(s, t, (path + [next])[k])) {
      if k < |path| { assert (path + [next])[k] == path[k]; }
    }
  }

  lemma PassesNothing(s: State, t: Tid, respawn: bool)
    requires t < |s.threads| && s.owner == if Holds(s.threads[t]) then Worker(t) else Free
    ensures Passes(s, t, respawn, [s.threads[t]])
  {
    ExecNothing(s);
    assert s.threads[t := s.threads[t]] == s.threads;
  }

  /** Alone, a thread at pc goes on to next without touching the set. */
  ghost predicate Leads(s: State, t: Tid, respawn: bool, pc: Pc, next: Pc)
    requires t < |s.threads|
  {
    Step(At(s, t, pc), WorkerStep(t, respawn)) == Some(At(s, t, next))
  }

  lemma LeadsTo(s: State, t: Tid, respawn: bool, pc: Pc, next: Pc)
    requires t < |s.threads| && !Registers(pc) && StepWorker(At(s, t, pc), t, respawn).Some?
    requires StepWorker(At(s, t, pc), t, respawn).value.threads[t] == next
    ensures Leads(s, t, respawn, pc, next)
  {
    assert s.threads[t := pc][t := next] == s.threads[t := next];
  }

  /** From taking a lock to letting it go, in a region that does nothing but hold it. */
  predicate PlainRegion(r: Region) { r == Context || r == Text || r == Eval || r == Alloc }

  function After(r: Region): Region
    requires PlainRegion(r)
  {
    match r
    case Context => Text
    case Text => Eval
    case Eval => Alloc
    case _ => Check
  }

  lemma PassesRegion(s: State, t: Tid, respawn: bool, path: seq<Pc>, r: Region)
    requires t < |s.threads| && path != [] && Passes(s, t, respawn, path)
    requires PlainRegion(r) && path[|path| - 1] == Wait(r)
    ensures Passes(s, t, respawn, path + [In(r), Wait(After(r))])
  {
    LeadsTo(s, t, respawn, Wait(r), In(r));
    LeadsTo(s, t, respawn, In(r), Wait(After(r)));
    hide Passes, StepWorker;
    PassesMore(s, t, respawn, path, In(r));
    PassesMore(s, t, respawn, path + [In(r)], Wait(After(r)));
    assert path + [In(r)] + [Wait(After(r))] == path + [In(r), Wait(After(r))];
  }

  lemma PassesCheck(s: State, t: Tid, respawn: bool, path: seq<Pc>)
    requires t < |s.threads| && path != [] && Passes(s, t, respawn, path) && path[|path| - 1] == Wait(Check)
    ensures Passes(s, t, respawn, path + [In(Check), Read(s.flag)])
  {
    LeadsTo(s, t, respawn, Wait(Check), In(Check));
    LeadsTo(s, t, respawn, In(Check), Read(s.flag));
    hide Passes, StepWorker;
    PassesMore(s, t, respawn, path, In(Check));
    PassesMore(s, t, respawn, path + [In(Check)], Read(s.flag));
    assert path + [In(Check)] + [Read(s.flag)] == path + [In(Check), Read(s.flag)];
  }

  lemma PassesLastRegion(s: State, t: Tid, respawn: bool, path: seq<Pc>, left: bool)
    requires t < |s.threads| && path != [] && Passes(s, t, respawn, path)
    requires path[|path| - 1] == Wait(Cleanup(left))
    ensures Passes(s, t, respawn, path + [In(Cleanup(left)), Done(left)])
  {
    LeadsTo(s, t, respawn, Wait(Cleanup(left)), In(Cleanup(left)));
    LeadsTo(s, t, respawn, In(Cleanup(left)), Done(left));
    hide Passes, StepWorker;
    PassesMore(s, t, respawn, path, In(Cleanup(left)));
    PassesMore(s, t, respawn, path + [In(Cleanup(left))], Done(left));
    assert path + [In(Cleanup(left))] + [Done(left)] == path + [In(Cleanup(left)), Done(left)];
  }

  lemma PassesCleanup(s: State, t: Tid, respawn: bool, path: seq<Pc>, left: bool)
    requires t < |s.threads| && path != [] && Passes(s, t, respawn, path)
    requires path[|path| - 1] == if left then Added else Read(true)
    ensures Passes(s, t, respawn, path + [Wait(Cleanup(left)), In(Cleanup(left)), Done(left)])
  {
    LeadsTo(s, t, respawn, path[|path| - 1], Wait(Cleanup(left)));
    hide Passes, StepWorker;
    PassesMore(s, t, respawn, path, Wait(Cleanup(left)));
    PassesLastRegion(s, t, respawn, path + [Wait(Cleanup(left))], left);
    assert path + [Wait(Cleanup(left))] + [In(Cleanup(left)), Done(left)]
      == path + [Wait(Cleanup(left)), In(Cleanup(left)), Done(left)];
  }

  /** From waiting to evaluate the script to reading the flag. */
  lemma PassesRound(s: State, t: Tid, respawn: bool, path: seq<Pc>)
    requires t < |s.threads| && path != [] && Passes(s, t, respawn, path) && path[|path| - 1] == Wait(Eval)
    ensures Passes(s, t, respawn, path + [In(Eval), Wait(Alloc), In(Alloc), Wait(Check), In(Check), Read(s.flag)])
  {
    hide Passes, StepWorker;
    PassesRegion(s, t, respawn, path, Eval);
    var p := path + [In(Eval), Wait(Alloc)];
    PassesRegion(s, t, respawn, p, Alloc);
    p := p + [In(Alloc), Wait(Check)];
    PassesCheck(s, t, respawn, p);
    assert p + [In(Check), Read(s.flag)] ==
      path + [In(Eval), Wait(Alloc), In(Alloc), Wait(Check), In(Check), Read(s.flag)];
  }

  /** A new thread alone passes the regions in this order, each once, up to reading the flag. */
  lemma FirstRound(s: State, t: Tid, respawn: bool)
    requires t < |s.threads| && s.owner == Free && s.threads[t] == Wait(Context)
    ensures Passes(s, t, respawn, [Wait(Context), In(Context), Wait(Text), In(Text), Wait(Eval), In(Eval),
      Wait(Alloc), In(Alloc), Wait(Check), In(Check), Read(s.flag)])
  {
    PassesNothing(s, t, respawn);
    hide Passes, StepWorker;
    var p := [Wait(Context)];
    PassesRegion(s, t, respawn, p, Context);
    p := p + [In(Context), Wait(Text)];
    PassesRegion(s, t, respawn, p, Text);
    p := p + [In(Text), Wait(Eval)];
    PassesRound(s, t, respawn, p);
    assert p + [In(Eval), Wait(Alloc), In(Alloc), Wait(Check), In(Check), Read(s.flag)] == [Wait(Context), In(Context),
      Wait(Text), In(Text), Wait(Eval), In(Eval), Wait(Alloc), In(Alloc), Wait(Check), In(Check), Read(s.flag)];
  }

  /** A worker that does not respawn comes back to reading the flag, through Eval, Alloc and Check, in seven steps. */
  lemma BackToTheCheck(s: State, t: Tid)
    requires t < |s.threads| && s.owner == Free && s.threads[t] == Choosing
    ensures Passes(s, t, false,
      [Choosing, Wait(Eval), In(Eval), Wait(Alloc), In(Alloc), Wait(Check), In(Check), Read(s.flag)])
  {
    PassesNothing(s, t, false);
    LeadsTo(s, t, false, Choosing, Wait(Eval));
    hide Passes, StepWorker;
    PassesMore(s, t, false, [Choosing], Wait(Eval));
    var p := [Choosing] + [Wait(Eval)];
    PassesRound(s, t, false, p);
    assert p + [In(Eval), Wait(Alloc), In(Alloc), Wait(Check), In(Check), Read(s.flag)] ==
      [Choosing, Wait(Eval), In(Eval), Wait(Alloc), In(Alloc), Wait(Check), In(Check), Read(s.flag)];
  }

  /** A worker that has read a clear flag goes on to its choice; after reading a set one it cleans up and is done. */
  lemma AfterTheCheck(s: State, t: Tid, respawn: bool, stop: bool)
    requires t < |s.threads| && s.owner == Worker(t) && s.threads[t] == Read(stop)
    ensures Passes(s, t, respawn,
      if stop then [Read(true), Wait(Cleanup(false)), In(Cleanup(false)), Done(false)] else [Read(false), Choosing])
  {
    PassesNothing(s, t, respawn);
    if stop {
      PassesCleanup(s, t, respawn, [Read(true)], false);
      assert [Read(true)] + [Wait(Cleanup(false)), In(Cleanup(false)), Done(false)]
        == [Read(true), Wait(Cleanup(false)), In(Cleanup(false)), Done(false)];
    } else {
      LeadsTo(s, t, respawn, Read(false), Choosing);
      PassesMore(s, t, respawn, [Read(false)], Choosing);
      assert [Read(false)] + [Choosing] == [Read(false), Choosing];
    }
  }

  /** s with thread t at pc, the given set, and perhaps a thread more. */
  function Swapping(s: State, t: Tid, pc: Pc, ids: set<Tid>, more: seq<Pc>): State
    requires t < |s.threads|
  {
    s.(owner := Worker(t), ids := ids, threads := s.threads[t := pc] + more)
  }

  lemma EntersRespawn(s: State, t: Tid)
    requires t < |s.threads|
    ensures At(s, t, In(Respawn)) == Swapping(s, t, In(Respawn), s.ids, [])
  {
    assert s.threads[t := In(Respawn)] + [] == s.threads[t := In(Respawn)];
  }

  lemma Removes(s: State, t: Tid)
    requires t < |s.threads|
    ensures Step(Swapping(s, t, In(Respawn), s.ids, []), WorkerStep(t, true))
      == Some(Swapping(s, t, Removed, s.ids - {t}, []))
  {
    assert (s.threads[t := In(Respawn)] + [])[t := Removed] == s.threads[t := Removed] + [];
  }

  lemma Creates(s: State, t: Tid, ids: set<Tid>)
    requires t < |s.threads|
    ensures Step(Swapping(s, t, Removed, ids, []), WorkerStep(t, true))
      == Some(Swapping(s, t, Created(|s.threads|), ids, [Wait(Context)]))
  {
    assert (s.threads[t := Removed] + [])[t := Created(|s.threads|)] == s.threads[t := Created(|s.threads|)];
  }

  lemma Adds(s: State, t: Tid, ids: set<Tid>, c: Tid)
    requires t < |s.threads|
    ensures Step(Swapping(s, t, Created(c), ids, [Wait(Context)]), WorkerStep(t, true))
      == Some(Swapping(s, t, Added, ids + {c}, [Wait(Context)]))
  {
    assert (s.threads[t := Created(c)] + [Wait(Context)])[t := Added] == s.threads[t := Added] + [Wait(Context)];
  }

  /** The three steps inside the Respawn region exchange the ids. */
  lemma Exchanges(s: State, t: Tid)
    requires t < |s.threads| && Exec(s, Times(WorkerStep(t, true), 2)) == Some(At(s, t, In(Respawn)))
    ensures Exec(s, Times(WorkerStep(t, true), 5))
      == Some(Swapping(s, t, Added, s.ids - {t} + {|s.threads|}, [Wait(Context)]))
  {
    hide *;
    EntersRespawn(s, t);
    Removes(s, t);
    OneMore(s, WorkerStep(t, true), 2, At(s, t, In(Respawn)), Swapping(s, t, Removed, s.ids - {t}, []));
    ExchangesRest(s, t, s.ids - {t});
  }

  lemma ExchangesRest(s: State, t: Tid, ids: set<Tid>)
    requires t < |s.threads| && Exec(s, Times(WorkerStep(t, true), 3)) == Some(Swapping(s, t, Removed, ids, []))
    ensures Exec(s, Times(WorkerStep(t, true), 5))
      == Some(Swapping(s, t, Added, ids + {|s.threads|}, [Wait(Context)]))
  {
    hide *;
    var c := |s.threads|;
    Creates(s, t, ids);
    OneMore(s, WorkerStep(t, true), 3, Swapping(s, t, Removed, ids, []),
      Swapping(s, t, Created(c), ids, [Wait(Context)]));
    Adds(s, t, ids, c);
    OneMore(s, WorkerStep(t, true), 4, Swapping(s, t, Created(c), ids, [Wait(Context)]),
      Swapping(s, t, Added, ids + {c}, [Wait(Context)]));
  }

  lemma EntersTheRegion(s: State, t: Tid)
    requires t < |s.threads| && s.owner == Free && s.threads[t] == Choosing
    ensures Passes(s, t, true, [Choosing, Wait(Respawn), In(Respawn)])
  {
    PassesNothing(s, t, true);
    LeadsTo(s, t, true, Choosing, Wait(Respawn));
    LeadsTo(s, t, true, Wait(Respawn), In(Respawn));
    hide StepWorker, Exec, Passes;
    PassesMore(s, t, true, [Choosing], Wait(Respawn));
    PassesMore(s, t, true, [Choosing] + [Wait(Respawn)], In(Respawn));
    assert [Choosing] + [Wait(Respawn)] + [In(Respawn)] == [Choosing, Wait(Respawn), In(Respawn)];
  }

  lemma PassesLast(s: State, t: Tid, respawn: bool, path: seq<Pc>, k: nat)
    requires t < |s.threads| && |path| == k + 1 && Passes(s, t, respawn, path)
    ensures Exec(s, Times(WorkerStep(t, respawn), k)) == Some(At(s, t, path[k]))
  {
  }

  lemma SwappedAndDone(s: State, t: Tid, ids: set<Tid>)
    requires t < |s.threads|
    ensures var v := Swapping(s, t, Added, ids, [Wait(Context)]);
      && t < |v.threads| && v.owner == Worker(t) && v.threads[t] == Added
      && v.threads[t := Done(true)] == s.threads[t := Done(true)] + [Wait(Context)]
  {
  }

  /** A worker alone that respawns: its id is exchanged for that of a new thread, and it cleans up and is done. */
  lemma ReplacesItself(s: State, t: Tid)
    requires t < |s.threads| && s.owner == Free && s.threads[t] == Choosing
    ensures Passes(s, t, true, [Choosing, Wait(Respawn), In(Respawn)])
    ensures Exec(s, Times(WorkerStep(t, true), 5)) == Some(s.(owner := Worker(t),
      ids := s.ids - {t} + {|s.threads|}, threads := s.threads[t := Added] + [Wait(Context)]))
    ensures Exec(s, Times(WorkerStep(t, true), 8)) == Some(s.(
      ids := s.ids - {t} + {|s.threads|}, threads := s.threads[t := Done(true)] + [Wait(Context)]))
  {
    hide StepWorker, Step, Exec, Passes, Times, At;
    var path := [Choosing, Wait(Respawn), In(Respawn)];
    EntersTheRegion(s, t);
    PassesLast(s, t, true, path, 2);
    Exchanges(s, t);
    var v := Swapping(s, t, Added, s.ids - {t} + {|s.threads|}, [Wait(Context)]);
    SwappedAndDone(s, t, s.ids - {t} + {|s.threads|});
    CleansUp(v, t);
    FiveAndThree(s, WorkerStep(t, true), v);
  }

  lemma CleansUp(s: State, t: Tid)
    requires t < |s.threads| && s.owner == Worker(t) && s.threads[t] == Added
    ensures Exec(s, Times(WorkerStep(t, true), 3)) == Some(s.(owner := Free, threads := s.threads[t := Done(true)]))
  {
    hide StepWorker, Exec;
    PassesNothing(s, t, true);
    PassesCleanup(s, t, true, [Added], true);
    assert ([Added] + [Wait(Cleanup(true)), In(Cleanup(true)), Done(true)])[3] == Done(true);
  }

  lemma FiveAndThree(s: State, l: Label, u: State)
    requires Exec(s, Times(l, 5)) == Some(u)
    ensures Exec(s, Times(l, 8)) == Exec(u, Times(l, 3))
  {
    assert Times(l, 8) == Times(l, 5) + Times(l, 3);
    ExecAppends(s, Times(l, 5), Times(l, 3));
  }

  // ---- start and stop alone -----------------------------------------------------------------

  function Below(i: nat): (b: set<Tid>)
    ensures forall t: Tid :: t in b <==> t < i
  {
    if i == 0 then {} else Below(i - 1) + {i - 1}
  }

  /** start alone creates n threads, in front of their first lock, and registers them all. */
  lemma StartAlone(n: nat)
    ensures Exec(Init(n), Times(MainStep, 2 * n + 2)) ==
      Some(State(n, Free, false, Below(n), seq(n, _ => Wait(Context)), Running))
  {
    StartsFirst(n, n);
    OneMore(Init(n), MainStep, 2 * n + 1, Started(n, n), Started(n, n).(owner := Free, main := Running));
  }

  /** After the first i threads. */
  function Started(n: nat, i: nat): State {
    State(n, Main, false, Below(i), seq(i, _ => Wait(Context)), Starting(i))
  }

  lemma {:induction false} StartsFirst(n: nat, i: nat)
    requires i <= n
    ensures Exec(Init(n), Times(MainStep, 2 * i + 1)) == Some(Started(n, i))
    decreases i
  {
    if i == 0 {
      ExecNothing(Init(n));
      assert Times(MainStep, 0) == [];
      assert Started(n, 0).ids == {} && Started(n, 0).threads == [];
      OneMore(Init(n), MainStep, 0, Init(n), Started(n, 0));
    } else {
      StartsFirst(n, i - 1);
      var s := Started(n, i - 1);
      var u := s.(threads := s.threads + [Wait(Context)], main := StartingCreated(i - 1, i - 1));
      OneMore(Init(n), MainStep, 2 * i - 1, s, u);
      assert u.threads == Started(n, i).threads && u.ids + {i - 1} == Started(n, i).ids;
      OneMore(Init(n), MainStep, 2 * i, u, Started(n, i));
    }
  }

  lemma SetsTheFlag(s: State)
    requires s.owner == Free && s.main == Running
    ensures Exec(s, Times(MainStep, 3)) == Some(s.(flag := true, main := Stopping))
  {
    hide Exec;
    ExecNothing(s);
    assert Times(MainStep, 0) == [];
    OneMore(s, MainStep, 0, s, s.(owner := Main, main := Flagging));
    OneMore(s, MainStep, 1, s.(owner := Main, main := Flagging), s.(owner := Main, flag := true, main := Flagged));
    OneMore(s, MainStep, 2, s.(owner := Main, flag := true, main := Flagged), s.(flag := true, main := Stopping));
  }

  lemma TakesTheSet(s: State, u: State)
    requires u.owner == Free && u.main == Stopping && Exec(s, Times(MainStep, 3)) == Some(u)
    ensures Exec(s, Times(MainStep, 6)) == Some(u.(main := Snapped(u.ids)))
  {
    hide Exec;
    OneMore(s, MainStep, 3, u, u.(owner := Main, main := Snapshotting));
    OneMore(s, MainStep, 4, u.(owner := Main, main := Snapshotting), u.(owner := Main, main := Copied(u.ids)));
    OneMore(s, MainStep, 5, u.(owner := Main, main := Copied(u.ids)), u.(main := Snapped(u.ids)));
  }

  /** stop alone sets the flag and lets go of the mutex, and then takes the set as it is for its snapshot. */
  lemma StopAlone(s: State)
    requires s.owner == Free && s.main == Running
    ensures Exec(s, Times(MainStep, 3)) == Some(s.(flag := true, main := Stopping))
    ensures Exec(s, Times(MainStep, 6)) == Some(s.(flag := true, main := Snapped(s.ids)))
  {
    hide Exec, Times;
    SetsTheFlag(s);
    TakesTheSet(s, s.(flag := true, main := Stopping));
  }
}
