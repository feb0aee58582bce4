/**
 The bounded work queue of DumpRenderTree's WorkQueue.cpp: an array with two
 indices, refined to a first-in first-out sequence, and the loop that runs the
 items while they put further items into the queue.
 */
module WorkQueue {
  import opened Options

  const QUEUE_LENGTH := 1024

  /** A work item, known by its address only. */
  datatype Item = Item(address: nat)

  datatype Event = Enqueue(item: Item) | Dequeue | SetFrozen(frozen: bool) | Clear

  // ---- the queue as a value --------------------------------------------------------

  /**
   taken and pending are what left and what is in the queue since it was last
   cleared; the other sequences are histories of the whole run.
   */
  datatype Model = Model(
    taken: seq<Item>, pending: seq<Item>, frozen: bool,
    submitted: seq<Item>, rejected: seq<Item>, dequeued: seq<Item>, cleared: seq<Item>)

  const EMPTY := Model([], [], false, [], [], [], [])

  predicate Full(m: Model) { |m.taken| + |m.pending| >= QUEUE_LENGTH }

  /** None: the assertion that there is room fails, which it does on a full array even when the queue is frozen. */
  function Apply(m: Model, e: Event): Option<Model> {
    match e
    case Enqueue(item) =>
      if Full(m) then None
      else if m.frozen then Some(m.(submitted := m.submitted + [item], rejected := m.rejected + [item]))
      else Some(m.(submitted := m.submitted + [item], pending := m.pending + [item]))
    case Dequeue =>
      if m.pending == [] then Some(m)
      else
        var item := m.pending[0];
        Some(m.(taken := m.taken + [item], dequeued := m.dequeued + [item], pending := m.pending[1..]))
    case SetFrozen(frozen) => Some(m.(frozen := frozen))
    case Clear => Some(m.(taken := [], pending := [], cleared := m.cleared + m.pending))
  }

  function Exec(m: Model, events: seq<Event>): Option<Model> {
    if events == [] then Some(m)
    else
      match Exec(m, events[..|events| - 1])
      case None => None
      case Some(n) => Apply(n, events[|events| - 1])
  }

  lemma {:induction false} ExecConcat(m: Model, first: seq<Event>, second: seq<Event>)
    requires Exec(m, first).Some?
    ensures Exec(m, first + second) == Exec(Exec(m, first).value, second)
    decreases |second|
  {
    if second == [] {
      assert first + second == first;
    } else {
      var init := second[..|second| - 1];
      ExecConcat(m, first, init);
      assert (first + second)[..|first + second| - 1] == first + init;
    }
  }

  // ---- what a run does to its items ---------------------------------------------------

  ghost predicate FrozenAfter(events: seq<Event>) {
    if events == [] then false
    else
      var last := events[|events| - 1];
      if last.SetFrozen? then last.frozen else FrozenAfter(events[..|events| - 1])
  }

  /** The items queued while not frozen since the last clear, oldest first. */
  ghost function Accepted(events: seq<Event>): seq<Item> {
    if events == [] then []
    else
      var last, init := events[|events| - 1], events[..|events| - 1];
      if last.Clear? then []
      else if last.Enqueue? && !FrozenAfter(init) then Accepted(init) + [last.item]
      else Accepted(init)
  }

  ghost function Submitted(events: seq<Event>): seq<Item> {
    if events == [] then []
    else
      var last, init := events[|events| - 1], events[..|events| - 1];
      Submitted(init) + if last.Enqueue? then [last.item] else []
  }

  /** How many items were taken since the last clear: one for each dequeue that found an item. */
  ghost function TakenCount(events: seq<Event>): nat {
    if events == [] then 0
    else
      var last, init := events[|events| - 1], events[..|events| - 1];
      if last.Clear? then 0
      else if last.Dequeue? && TakenCount(init) < |Accepted(init)| then TakenCount(init) + 1
      else TakenCount(init)
  }

  /** The items that left the queue, each the oldest at its time. */
  ghost function Dequeued(events: seq<Event>): seq<Item> {
    if events == [] then []
    else
      var last, init := events[|events| - 1], events[..|events| - 1];
      if last.Dequeue? && TakenCount(init) < |Accepted(init)| then Dequeued(init) + [Accepted(init)[TakenCount(init)]]
      else Dequeued(init)
  }

  /** The items submitted while the queue was frozen. */
  ghost function Rejected(events: seq<Event>): seq<Item> {
    if events == [] then []
    else
      var last, init := events[|events| - 1], events[..|events| - 1];
      if last.Enqueue? && FrozenAfter(init) then Rejected(init) + [last.item] else Rejected(init)
  }

  /** Nothing is queued, frozen or not, once the array has been filled since the last clear. */
  ghost predicate HasRoom(events: seq<Event>) {
    forall i :: 0 <= i < |events| && events[i].Enqueue? ==> |Accepted(events[..i])| < 1024
  }

  ghost predicate Partitioned(m: Model) {
    multiset(m.submitted) == multiset(m.rejected) + multiset(m.dequeued) + multiset(m.pending) + multiset(m.cleared)
  }

  lemma ApplyKeepsPartition(m: Model, e: Event)
    requires Partitioned(m) && Apply(m, e).Some?
    ensures Partitioned(Apply(m, e).value)
  {
    if e.Dequeue? && m.pending != [] {
      assert m.pending == [m.pending[0]] + m.pending[1..];
    }
  }

  /** The last items dequeued are the ones taken since the last clear. */
  ghost predicate TakenLast(m: Model) {
    |m.taken| <= |m.dequeued| && m.taken == m.dequeued[|m.dequeued| - |m.taken|..]
  }

  lemma ApplyKeepsOrder(m: Model, e: Event)
    requires TakenLast(m) && Apply(m, e).Some?
    ensures var n, queue := Apply(m, e).value, m.taken + m.pending;
      && TakenLast(n)
      && n.taken + n.pending == if e.Clear? then [] else if e.Enqueue? && !m.frozen then queue + [e.item] else queue
  {
    var n, queue := Apply(m, e).value, m.taken + m.pending;
    if e.Dequeue? && m.pending != [] {
      assert n.taken + n.pending == queue;
    } else if e.Enqueue? && !m.frozen {
      assert n.taken + n.pending == queue + [e.item];
    }
  }

  /**
   The queue is what was accepted and not taken yet, oldest first; each submitted
   item is in exactly one of rejected, dequeued, pending, cleared; and rejected
   and dequeued are the items the run says.
   */
  ghost predicate IsFifo(m: Model, events: seq<Event>) {
    && m.taken + m.pending == Accepted(events) && m.frozen == FrozenAfter(events)
    && m.submitted == Submitted(events) && Partitioned(m)
    && TakenLast(m)
    && Counts(m, events)
  }

  ghost predicate Counts(m: Model, events: seq<Event>) {
    |m.taken| == TakenCount(events) && m.dequeued == Dequeued(events) && m.rejected == Rejected(events)
  }

  lemma CountsGrow(init: seq<Event>, last: Event)
    ensures TakenCount(init + [last]) == if last.Clear? then 0
      else if last.Dequeue? && TakenCount(init) < |Accepted(init)| then TakenCount(init) + 1 else TakenCount(init)
    ensures Dequeued(init + [last]) ==
      if last.Dequeue? && TakenCount(init) < |Accepted(init)| then Dequeued(init) + [Accepted(init)[TakenCount(init)]]
      else Dequeued(init)
    ensures Rejected(init + [last]) ==
      if last.Enqueue? && FrozenAfter(init) then Rejected(init) + [last.item] else Rejected(init)
  {
    assert (init + [last])[..|init|] == init;
  }

  lemma ApplyKeepsCounts(m: Model, init: seq<Event>, last: Event)
    requires Counts(m, init) && m.taken + m.pending == Accepted(init) && m.frozen == FrozenAfter(init)
    requires Apply(m, last).Some?
    ensures Counts(Apply(m, last).value, init + [last])
  {
    hide TakenCount, Dequeued, Rejected, Accepted, FrozenAfter;
    CountsGrow(init, last);
    assert m.pending != [] ==> (m.taken + m.pending)[|m.taken|] == m.pending[0];
  }

  lemma HasRoomSplits(events: seq<Event>)
    requires events != []
    ensures var last, init := events[|events| - 1], events[..|events| - 1];
      HasRoom(events) <==> HasRoom(init) && (last.Enqueue? ==> |Accepted(init)| < 1024)
  {
    var init := events[..|events| - 1];
    forall i | 0 <= i < |init| ensures init[..i] == events[..i] {}
    if HasRoom(events) {
      forall i | 0 <= i < |init| && init[i].Enqueue? ensures |Accepted(init[..i])| < 1024 {
        assert events[i].Enqueue?;
      }
    }
  }

  lemma NothingIsFifo()
    ensures Exec(EMPTY, []) == Some(EMPTY) && HasRoom([]) && IsFifo(EMPTY, [])
  {
  }

  /**
   Every run: the assertion never fails exactly when there is room for every
   submission; then the queue is first-in first-out since the last clear, and
   each submitted item is in exactly one of rejected, dequeued, pending, cleared.
   */
  lemma {:induction false} RunIsFifo(events: seq<Event>)
    ensures Exec(EMPTY, events).Some? <==> HasRoom(events)
    ensures Exec(EMPTY, events).Some? ==>
      IsFifo(Exec(EMPTY, events).value, events)
    decreases |events|
  {
    hide Exec, HasRoom, IsFifo, Apply, Accepted;
    if events == [] {
      NothingIsFifo();
    } else {
      var last, init := events[|events| - 1], events[..|events| - 1];
      assert events == init + [last];
      RunIsFifo(init);
      HasRoomSplits(events);
      ExecSnoc(EMPTY, init, last);
      if Exec(EMPTY, init).Some? { FifoGoesOn(Exec(EMPTY, init).value, init, last); }
    }
  }

  lemma FifoGoesOn(m: Model, init: seq<Event>, last: Event)
    requires IsFifo(m, init)
    ensures Apply(m, last).Some? <==> (last.Enqueue? ==> |Accepted(init)| < 1024)
    ensures Apply(m, last).Some? ==> IsFifo(Apply(m, last).value, init + [last])
  {
    hide Partitioned, TakenLast, Accepted, Submitted, FrozenAfter, Counts;
    TraceGrows(init, last);
    assert |m.taken + m.pending| == |Accepted(init)|;
    if Apply(m, last).Some? {
      ApplyKeepsPartition(m, last);
      ApplyKeepsOrder(m, last);
      ApplyKeepsCounts(m, init, last);
    }
  }

  lemma TraceGrows(init: seq<Event>, last: Event)
    ensures var events := init + [last];
      && FrozenAfter(events) == (if last.SetFrozen? then last.frozen else FrozenAfter(init))
      && Submitted(events) == Submitted(init) + (if last.Enqueue? then [last.item] else [])
      && Accepted(events) == if last.Clear? then []
           else if last.Enqueue? && !FrozenAfter(init) then Accepted(init) + [last.item] else Accepted(init)
  {
    assert (init + [last])[..|init|] == init;
  }

  function Repeat(e: Event, n: nat): (r: seq<Event>)
    ensures |r| == n
  {
    seq(n, _ => e)
  }

  lemma {:induction false} Fills(item: Item, n: nat)
    requires n <= QUEUE_LENGTH
    ensures var r := Exec(EMPTY, Repeat(Enqueue(item), n));
      r.Some? && |r.value.taken| + |r.value.pending| == n && !r.value.frozen
    decreases n
  {
    if n > 0 {
      Fills(item, n - 1);
      assert Repeat(Enqueue(item), n)[..n - 1] == Repeat(Enqueue(item), n - 1);
    }
  }

  lemma ExecSnoc(m: Model, events: seq<Event>, e: Event)
    ensures Exec(m, events + [e]) == match Exec(m, events) case None => None case Some(n) => Apply(n, e)
  {
    assert (events + [e])[..|events|] == events;
  }

  /** A run on which the assertion fails although the queue would only reject: fill it, freeze it, submit once more. */
  lemma FrozenFullQueueFails(item: Item, full: nat)
    requires full == 1024
    ensures var run := Repeat(Enqueue(item), full) + [SetFrozen(true)];
      Exec(EMPTY, run).Some? && Exec(EMPTY, run).value.frozen && Exec(EMPTY, run + [Enqueue(item)]) == None
  {
    var fill := Repeat(Enqueue(item), full);
    Fills(item, full);
    ExecSnoc(EMPTY, fill, SetFrozen(true));
    ExecSnoc(EMPTY, fill + [SetFrozen(true)], Enqueue(item));
  }

  // ---- running the items --------------------------------------------------------------

  /** What an item may do to the queue while it runs. */
  type Action = e: Event | e.Enqueue? || e.SetFrozen? witness SetFrozen(false)

  datatype Invocation = Invocation(actions: seq<Action>, startedLoad: bool)

  datatype Outcome = Done(allWorkDone: bool) | Asserted

  /** failed is the submission on which the assertion failed, if it did; it is not among the events. */
  datatype Processed = Processed(outcome: Outcome, final: Model, events: seq<Event>, failed: Option<Item>)

  /** The actions up to the first that fails the assertion. */
  function Perform(m: Model, actions: seq<Action>, i: nat): (r: (Model, nat))
    requires i <= |actions|
    ensures i <= r.1 <= |actions|
    decreases |actions| - i
  {
    if i == |actions| then (m, i)
    else
      match Apply(m, actions[i])
      case None => (m, i)
      case Some(n) => Perform(n, actions, i + 1)
  }

  lemma {:induction false} PerformIsARun(m: Model, actions: seq<Action>, i: nat)
    requires i <= |actions| && |m.taken| + |m.pending| <= QUEUE_LENGTH
    ensures var (n, j) := Perform(m, actions, i);
      && Exec(m, actions[i..j]) == Some(n) && (j < |actions| ==> Full(n) && actions[j].Enqueue?)
      && n.taken == m.taken && m.pending <= n.pending && |n.taken| + |n.pending| <= QUEUE_LENGTH
      && n.cleared == m.cleared
    decreases |actions| - i
  {
    if i < |actions| && Apply(m, actions[i]).Some? {
      var n := Apply(m, actions[i]).value;
      PerformIsARun(n, actions, i + 1);
      var (_, j) := Perform(m, actions, i);
      assert actions[i..j] == [actions[i]] + actions[i + 1..j];
      assert [actions[i]][..0] == [];
      assert Exec(m, [actions[i]]) == Some(n);
      ExecConcat(m, [actions[i]], actions[i + 1..j]);
    }
  }

  /** The loop of processWork; k counts the items invoked before. */
  function Process(m: Model, k: nat, invoke: (Item, nat) -> Invocation): Processed
    requires |m.taken| + |m.pending| <= QUEUE_LENGTH
    decreases QUEUE_LENGTH - |m.taken|
  {
    if m.pending == [] then Processed(Done(true), m, [], None)
    else
      var n := Apply(m, Dequeue).value;
      var invocation := invoke(m.pending[0], k);
      var (after, j) := Perform(n, invocation.actions, 0);
      var events := [Dequeue] + invocation.actions[..j];
      PerformIsARun(n, invocation.actions, 0);
      if j < |invocation.actions| then Processed(Asserted, after, events, Some(invocation.actions[j].item))
      else if invocation.startedLoad then Processed(Done(false), after, events, None)
      else
        var rest := Process(after, k + 1, invoke);
        Processed(rest.outcome, rest.final, events + rest.events, rest.failed)
  }

  /** One item's turn is a run: the dequeue and then the actions. */
  lemma TurnIsARun(m: Model, actions: seq<Action>)
    requires |m.taken| + |m.pending| <= QUEUE_LENGTH && m.pending != []
    ensures var (after, j) := Perform(Apply(m, Dequeue).value, actions, 0);
      && Exec(m, [Dequeue] + actions[..j]) == Some(after) && (j < |actions| ==> Full(after))
      && |after.taken| + |after.pending| <= QUEUE_LENGTH
      && after.taken == m.taken + [m.pending[0]] && m.taken + m.pending <= after.taken + after.pending
  {
    var n := Apply(m, Dequeue).value;
    var (after, j) := Perform(n, actions, 0);
    var first: seq<Event> := [Dequeue];
    var acts: seq<Event> := actions[..j];
    PerformIsARun(n, actions, 0);
    assert first[..0] == [];
    assert Exec(m, first) == Some(n);
    ExecConcat(m, first, acts);
    assert actions[0..j] == acts;
    assert m.taken + m.pending == n.taken + n.pending;
  }

  /**
   However the items act on the queue, processWork is a run of dequeues and of
   the items' actions, so what holds of every run holds of it. It takes items in
   queue order and drops none, returns true only with an empty queue, and fails
   the assertion only on a full array.
   */
  lemma {:induction false} ProcessWorkIsARun(m: Model, k: nat, invoke: (Item, nat) -> Invocation)
    requires |m.taken| + |m.pending| <= QUEUE_LENGTH
    ensures var r := Process(m, k, invoke);
      && Exec(m, r.events) == Some(r.final) && Clear !in r.events
      && m.taken <= r.final.taken && m.taken + m.pending <= r.final.taken + r.final.pending
      && (r.outcome == Done(true) ==> r.final.pending == [])
      && (r.outcome.Asserted? <==> r.failed.Some?) && (r.failed.Some? ==> Full(r.final))
      && |r.final.taken| + |r.final.pending| <= QUEUE_LENGTH
    decreases QUEUE_LENGTH - |m.taken|
  {
    if m.pending != [] {
      var invocation := invoke(m.pending[0], k);
      TurnIsARun(m, invocation.actions);
      var (after, j) := Perform(Apply(m, Dequeue).value, invocation.actions, 0);
      if j == |invocation.actions| && !invocation.startedLoad {
        ProcessWorkIsARun(after, k + 1, invoke);
        ExecConcat(m, [Dequeue] + invocation.actions[..j], Process(after, k + 1, invoke).events);
      }
    }
  }

  // ---- what processWork does, said without its loop ----------------------------------

  /** The events of the items' turns: each is taken from the queue and then does its actions. */
  ghost function Turns(items: seq<Item>, k: nat, invoke: (Item, nat) -> Invocation): seq<Event>
    decreases items
  {
    if items == [] then [] else [Dequeue] + invoke(items[0], k).actions + Turns(items[1..], k + 1, invoke)
  }

  /**
   The items had their turns, all of them whole, or the last one up to the
   submission of x, on which the assertion failed.
   */
  ghost predicate HadTheirTurns(items: seq<Item>, k: nat, invoke: (Item, nat) -> Invocation, events: seq<Event>,
      failed: Option<Item>)
  {
    match failed
    case None => events == Turns(items, k, invoke)
    case Some(x) =>
      && items != []
      && Turns(items[..|items| - 1], k, invoke) + [Dequeue] <= events
      && events + [Enqueue(x)] <= Turns(items, k, invoke)
  }

  ghost predicate OnlyTheLastLoads(items: seq<Item>, k: nat, invoke: (Item, nat) -> Invocation) {
    forall i :: 0 <= i < |items| - 1 ==> !invoke(items[i], k + i).startedLoad
  }

  ghost predicate LastLoads(items: seq<Item>, k: nat, invoke: (Item, nat) -> Invocation) {
    items != [] && invoke(items[|items| - 1], k + |items| - 1).startedLoad
  }

  /**
   From m, the events are what the loop of processWork may do: items of the queue
   have their turns, none behind one that starts a load; without a failure the
   queue is empty at the end or the last item has started a load.
   */
  ghost predicate IsWork(m: Model, k: nat, invoke: (Item, nat) -> Invocation, events: seq<Event>, failed: Option<Item>)
  {
    Exec(m, events).Some? && IsWorkTo(m, Exec(m, events).value, k, invoke, events, failed)
  }

  ghost predicate IsWorkTo(m: Model, n: Model, k: nat, invoke: (Item, nat) -> Invocation, events: seq<Event>,
      failed: Option<Item>)
  {
    m.taken <= n.taken &&
    var items := n.taken[|m.taken|..];
      && HadTheirTurns(items, k, invoke, events, failed) && OnlyTheLastLoads(items, k, invoke)
      && (failed == None ==> n.pending == [] || LastLoads(items, k, invoke))
      && (failed.Some? ==> Full(n))
  }

  lemma NoTurns(k: nat, invoke: (Item, nat) -> Invocation)
    ensures HadTheirTurns([], k, invoke, [], None) && OnlyTheLastLoads([], k, invoke)
  {
  }

  lemma OneTurnAsked(item: Item, k: nat, invoke: (Item, nat) -> Invocation, j: nat)
    requires j <= |invoke(item, k).actions|
    ensures var actions: seq<Event> := invoke(item, k).actions;
      var events := [Dequeue] + actions[..j];
      && (j == |actions| ==> HadTheirTurns([item], k, invoke, events, None))
      && (j < |actions| && actions[j].Enqueue? ==> HadTheirTurns([item], k, invoke, events, Some(actions[j].item)))
  {
    var actions: seq<Event> := invoke(item, k).actions;
    assert [item][1..] == [] && [item][..0] == [];
    assert Turns([item], k, invoke) == [Dequeue] + actions;
    assert j == |actions| ==> actions[..j] == actions;
    assert j < |actions| ==> actions[..j] + [actions[j]] == actions[..j + 1];
  }

  lemma TurnsCons(item: Item, items: seq<Item>, k: nat, invoke: (Item, nat) -> Invocation)
    ensures Turns([item] + items, k, invoke) == [Dequeue] + invoke(item, k).actions + Turns(items, k + 1, invoke)
  {
    assert ([item] + items)[1..] == items;
  }

  lemma PrefixBehind(head: seq<Event>, p: seq<Event>, s: seq<Event>)
    requires p <= s
    ensures head + p <= head + s
  {
  }

  lemma OneMoreTurn(item: Item, items: seq<Item>, k: nat, invoke: (Item, nat) -> Invocation, events: seq<Event>,
      failed: Option<Item>)
    requires HadTheirTurns(items, k + 1, invoke, events, failed)
    ensures HadTheirTurns([item] + items, k, invoke, [Dequeue] + invoke(item, k).actions + events, failed)
  {
    hide Turns;
    var head := [Dequeue] + invoke(item, k).actions;
    TurnsCons(item, items, k, invoke);
    if failed.Some? {
      var init, e := items[..|items| - 1], Enqueue(failed.value);
      TurnsCons(item, init, k, invoke);
      assert ([item] + items)[..|items|] == [item] + init;
      PrefixBehind(head, Turns(init, k + 1, invoke) + [Dequeue], events);
      assert head + Turns(init, k + 1, invoke) + [Dequeue] == head + (Turns(init, k + 1, invoke) + [Dequeue]);
      PrefixBehind(head, events + [e], Turns(items, k + 1, invoke));
      assert head + events + [e] == head + (events + [e]);
    }
  }

  lemma LoadsShift(item: Item, items: seq<Item>, k: nat, invoke: (Item, nat) -> Invocation)
    requires OnlyTheLastLoads(items, k + 1, invoke) && !invoke(item, k).startedLoad
    ensures OnlyTheLastLoads([item] + items, k, invoke)
    ensures LastLoads(items, k + 1, invoke) ==> LastLoads([item] + items, k, invoke)
  {
    forall i | 0 <= i < |items| ensures !invoke(([item] + items)[i], k + i).startedLoad {
      if i > 0 { assert !invoke(items[i - 1], k + 1 + (i - 1)).startedLoad; }
    }
  }

  /** The loop of processWork up to the end of the first item's turn. */
  lemma FirstTurn(m: Model, k: nat, invoke: (Item, nat) -> Invocation) returns (after: Model, j: nat)
    requires |m.taken| + |m.pending| <= QUEUE_LENGTH && m.pending != []
    ensures after.taken == m.taken + [m.pending[0]] && |after.taken| + |after.pending| <= QUEUE_LENGTH
    ensures var invocation := invoke(m.pending[0], k);
      var actions: seq<Event> := invocation.actions;
      && j <= |actions| && (j < |actions| ==> actions[j].Enqueue? && Full(after))
      && Process(m, k, invoke) ==
        if j < |actions| then Processed(Asserted, after, [Dequeue] + actions[..j], Some(actions[j].item))
        else if invocation.startedLoad then Processed(Done(false), after, [Dequeue] + actions, None)
        else
          var rest := Process(after, k + 1, invoke);
          Processed(rest.outcome, rest.final, [Dequeue] + actions + rest.events, rest.failed)
  {
    var invocation := invoke(m.pending[0], k);
    TurnIsARun(m, invocation.actions);
    PerformIsARun(Apply(m, Dequeue).value, invocation.actions, 0);
    hide Exec, Apply, Perform;
    var (n, i) := Perform(Apply(m, Dequeue).value, invocation.actions, 0);
    after, j := n, i;
    assert invocation.actions[..|invocation.actions|] == invocation.actions;
  }

  lemma WorkStops(m: Model, item: Item, after: Model, k: nat, invoke: (Item, nat) -> Invocation, j: nat)
    requires after.taken == m.taken + [item] && j <= |invoke(item, k).actions|
    requires j < |invoke(item, k).actions| ==> invoke(item, k).actions[j].Enqueue? && Full(after)
    requires j == |invoke(item, k).actions| ==> invoke(item, k).startedLoad
    ensures var actions: seq<Event> := invoke(item, k).actions;
      if j < |actions| then IsWorkTo(m, after, k, invoke, [Dequeue] + actions[..j], Some(actions[j].item))
      else IsWorkTo(m, after, k, invoke, [Dequeue] + actions, None)
  {
    hide HadTheirTurns, Full;
    OneTurnAsked(item, k, invoke, j);
    assert after.taken[|m.taken|..] == [item];
    var actions: seq<Event> := invoke(item, k).actions;
    assert actions[..|actions|] == actions;
  }

  lemma NoWork(m: Model, k: nat, invoke: (Item, nat) -> Invocation)
    requires m.pending == []
    ensures IsWorkTo(m, m, k, invoke, [], None)
  {
    NoTurns(k, invoke);
    assert m.taken[|m.taken|..] == [];
  }

  /** The loop of processWork does what IsWork says, from any queue and whatever the items do. */
  lemma {:induction false} ProcessIsWork(m: Model, k: nat, invoke: (Item, nat) -> Invocation)
    requires |m.taken| + |m.pending| <= QUEUE_LENGTH
    ensures var r := Process(m, k, invoke); IsWorkTo(m, r.final, k, invoke, r.events, r.failed)
    decreases QUEUE_LENGTH - |m.taken|
  {
    if m.pending == [] {
      NoWork(m, k, invoke);
    } else {
      hide Process, IsWorkTo, Full;
      var item := m.pending[0];
      var after, j := FirstTurn(m, k, invoke);
      if j < |invoke(item, k).actions| || invoke(item, k).startedLoad {
        WorkStops(m, item, after, k, invoke, j);
      } else {
        ProcessIsWork(after, k + 1, invoke);
        WorkGoesOn(m, item, after, k, invoke);
      }
    }
  }

  lemma WorkGoesOn(m: Model, item: Item, after: Model, k: nat, invoke: (Item, nat) -> Invocation)
    requires |after.taken| + |after.pending| <= QUEUE_LENGTH && after.taken == m.taken + [item]
    requires !invoke(item, k).startedLoad
    requires var r := Process(after, k + 1, invoke); IsWorkTo(after, r.final, k + 1, invoke, r.events, r.failed)
    ensures var r := Process(after, k + 1, invoke);
      IsWorkTo(m, r.final, k, invoke, [Dequeue] + invoke(item, k).actions + r.events, r.failed)
  {
    hide Process, HadTheirTurns, OnlyTheLastLoads, LastLoads;
    var r := Process(after, k + 1, invoke);
    var items := r.final.taken[|after.taken|..];
    assert r.final.taken[|m.taken|..] == [item] + items;
    OneMoreTurn(item, items, k, invoke, r.events, r.failed);
    LoadsShift(item, items, k, invoke);
  }

  /** What one item's turn makes of the loop: it stops, or goes on from after. */
  lemma OneTurn(m: Model, k: nat, invoke: (Item, nat) -> Invocation) returns (after: Model, stops: bool)
    requires |m.taken| + |m.pending| <= QUEUE_LENGTH && m.pending != []
    ensures after.taken == m.taken + [m.pending[0]] && |after.taken| + |after.pending| <= QUEUE_LENGTH
    ensures var r, load := Process(m, k, invoke), invoke(m.pending[0], k).startedLoad;
      if stops then r.final == after && (r.outcome.Asserted? || (r.outcome == Done(false) && load))
      else !load && r.final == Process(after, k + 1, invoke).final && r.outcome == Process(after, k + 1, invoke).outcome
  {
    var invocation := invoke(m.pending[0], k);
    TurnIsARun(m, invocation.actions);
    var (n, j) := Perform(Apply(m, Dequeue).value, invocation.actions, 0);
    after := n;
    stops := j < |invocation.actions| || invocation.startedLoad;
  }

  lemma {:induction false} FalseAfterAnItem(m: Model, k: nat, invoke: (Item, nat) -> Invocation)
    requires |m.taken| + |m.pending| <= QUEUE_LENGTH && Process(m, k, invoke).outcome == Done(false)
    ensures |m.taken| < |Process(m, k, invoke).final.taken|
  {
    if m.pending != [] {
      var after, stops := OneTurn(m, k, invoke);
      if !stops { ProcessWorkIsARun(after, k + 1, invoke); }
    }
  }

  /** Of the items invoked, the last one started a load when processWork returns false, and no other ever did. */
  lemma {:induction false} OnlyALoadStopsTheWork(m: Model, k: nat, invoke: (Item, nat) -> Invocation, i: nat)
    requires |m.taken| + |m.pending| <= QUEUE_LENGTH
    requires var r := Process(m, k, invoke); !r.outcome.Asserted? && |m.taken| <= i < |r.final.taken|
    ensures var r := Process(m, k, invoke);
      invoke(r.final.taken[i], k + i - |m.taken|).startedLoad ==
        (r.outcome == Done(false) && i == |r.final.taken| - 1)
    decreases QUEUE_LENGTH - |m.taken|
  {
    if m.pending != [] {
      var after, stops := OneTurn(m, k, invoke);
      if !stops {
        ItemsStayInOrder(m, after, k, invoke);
        if i > |m.taken| {
          OnlyALoadStopsTheWork(after, k + 1, invoke, i);
        } else if Process(m, k, invoke).outcome == Done(false) {
          FalseAfterAnItem(after, k + 1, invoke);
        }
      }
    }
  }

  lemma ItemsStayInOrder(m: Model, after: Model, k: nat, invoke: (Item, nat) -> Invocation)
    requires |after.taken| + |after.pending| <= QUEUE_LENGTH
    requires m.pending != [] && after.taken == m.taken + [m.pending[0]]
    ensures var taken := Process(after, k + 1, invoke).final.taken;
      |m.taken| < |taken| && taken[|m.taken|] == m.pending[0]
  {
    ProcessWorkIsARun(after, k + 1, invoke);
    assert after.taken[|m.taken|] == m.pending[0];
  }

  // ---- whole runs, with processWork among the other operations ------------------------

  datatype Operation = Plain(event: Event) | ProcessWork(invoke: (Item, nat) -> Invocation)

  /** The elementary steps of a run, up to the submission on which an assertion failed, if one did. */
  datatype Ran = Ran(final: Model, events: seq<Event>, failed: Option<Item>)

  function Operate(m: Model, op: Operation): Ran
    requires |m.taken| + |m.pending| <= QUEUE_LENGTH
  {
    match op
    case Plain(e) =>
      (match Apply(m, e) case None => Ran(m, [], Some(e.item)) case Some(n) => Ran(n, [e], None))
    case ProcessWork(invoke) =>
      var p := Process(m, 0, invoke);
      Ran(p.final, p.events, p.failed)
  }

  lemma PlainIsARun(m: Model, e: Event)
    requires |m.taken| + |m.pending| <= QUEUE_LENGTH
    ensures Exec(m, []) == Some(m) && Exec(m, [e]) == Apply(m, e) && (Apply(m, e) == None ==> Full(m))
    ensures Apply(m, e).Some? ==> |Apply(m, e).value.taken| + |Apply(m, e).value.pending| <= QUEUE_LENGTH
  {
    ExecSnoc(m, [], e);
    assert [] + [e] == [e];
  }

  lemma OperateIsARun(m: Model, op: Operation)
    requires |m.taken| + |m.pending| <= QUEUE_LENGTH
    ensures var r := Operate(m, op);
      && Exec(m, r.events) == Some(r.final) && (r.failed.Some? ==> Full(r.final))
      && |r.final.taken| + |r.final.pending| <= QUEUE_LENGTH
  {
    hide Exec, Process, Apply;
    match op
    case Plain(e) => PlainIsARun(m, e);
    case ProcessWork(invoke) => ProcessWorkIsARun(m, 0, invoke);
  }

  function RunAll(m: Model, ops: seq<Operation>): Ran
    requires |m.taken| + |m.pending| <= QUEUE_LENGTH
    decreases ops
  {
    if ops == [] then Ran(m, [], None)
    else
      var first := Operate(m, ops[0]);
      OperateIsARun(m, ops[0]);
      if first.failed.Some? then first
      else
        var rest := RunAll(first.final, ops[1..]);
        Ran(rest.final, first.events + rest.events, rest.failed)
  }

  lemma {:induction false} RunAllIsARun(m: Model, ops: seq<Operation>)
    requires |m.taken| + |m.pending| <= QUEUE_LENGTH
    ensures var r := RunAll(m, ops); Exec(m, r.events) == Some(r.final) && (r.failed.Some? ==> Full(r.final))
    decreases ops
  {
    if ops != [] {
      var first := Operate(m, ops[0]);
      OperateIsARun(m, ops[0]);
      if first.failed == None {
        RunAllIsARun(first.final, ops[1..]);
        ExecConcat(m, first.events, RunAll(first.final, ops[1..]).events);
      }
    }
  }

  // ---- the traces of such a run, said without executing it ------------------------------

  /** The events of one operation from m; failed is the submission on which the assertion failed. */
  ghost predicate IsPart(m: Model, op: Operation, events: seq<Event>, failed: Option<Item>) {
    match op
    case Plain(e) => if failed == None then events == [e] else events == [] && e == Enqueue(failed.value) && Full(m)
    case ProcessWork(invoke) => IsWork(m, 0, invoke, events, failed)
  }

  /** The operations in their order, each from where the one before it ended, up to the first that fails. */
  ghost predicate IsTrace(m: Model, ops: seq<Operation>, events: seq<Event>, failed: Option<Item>)
    decreases ops
  {
    if ops == [] then events == [] && failed == None
    else
      || (failed.Some? && IsPart(m, ops[0], events, failed))
      || exists cut: nat :: cut <= |events| && GoesOn(m, ops, events[..cut], events[cut..], failed)
  }

  /** The first operation makes the events in front, the others those behind. */
  ghost predicate GoesOn(m: Model, ops: seq<Operation>, front: seq<Event>, behind: seq<Event>, failed: Option<Item>)
    requires ops != []
    decreases ops, 0
  {
    && IsPart(m, ops[0], front, None) && Exec(m, front).Some?
    && IsTrace(Exec(m, front).value, ops[1..], behind, failed)
  }

  lemma OperateIsAPart(m: Model, op: Operation)
    requires |m.taken| + |m.pending| <= QUEUE_LENGTH
    ensures IsPart(m, op, Operate(m, op).events, Operate(m, op).failed)
  {
    match op
    case Plain(e) => PlainIsARun(m, e);
    case ProcessWork(invoke) =>
      ProcessWorkIsARun(m, 0, invoke);
      ProcessIsWork(m, 0, invoke);
  }

  lemma TraceCons(m: Model, ops: seq<Operation>, front: seq<Event>, behind: seq<Event>, failed: Option<Item>)
    requires ops != [] && GoesOn(m, ops, front, behind, failed)
    ensures IsTrace(m, ops, front + behind, failed)
  {
    hide GoesOn;
    assert (front + behind)[..|front|] == front && (front + behind)[|front|..] == behind;
  }

  /** A run makes a trace of its operations. */
  lemma {:induction false} RunAllIsATrace(m: Model, ops: seq<Operation>)
    requires |m.taken| + |m.pending| <= QUEUE_LENGTH
    ensures IsTrace(m, ops, RunAll(m, ops).events, RunAll(m, ops).failed)
    decreases ops
  {
    if ops != [] {
      hide Operate, IsPart, Exec;
      var first := Operate(m, ops[0]);
      OperateIsARun(m, ops[0]);
      OperateIsAPart(m, ops[0]);
      if first.failed == None {
        var rest := RunAll(first.final, ops[1..]);
        RunAllIsATrace(first.final, ops[1..]);
        TraceCons(m, ops, first.events, rest.events, rest.failed);
      }
    }
  }

  /** All that was attempted, with the failed submission at the end. */
  function Attempted(r: Ran): seq<Event> {
    match r.failed
    case None => r.events
    case Some(item) => r.events + [Enqueue(item)]
  }

  lemma FullFails(m: Model, events: seq<Event>, item: Item)
    requires Exec(EMPTY, events) == Some(m) && Full(m)
    ensures !HasRoom(events + [Enqueue(item)])
  {
    hide HasRoom, IsFifo;
    ExecSnoc(EMPTY, events, Enqueue(item));
    RunIsFifo(events + [Enqueue(item)]);
  }

  /**
   Every run of queue, dequeue, freeze, clear and processWork, whatever the items
   do: its events are a trace of the operations; no assertion fails exactly when
   there is room for every submission that is attempted; and up to a failure the
   queue is first-in first-out since the last clear and each submitted item is in
   exactly one place.
   */
  lemma MixedRunIsFifo(ops: seq<Operation>)
    ensures var r := RunAll(EMPTY, ops);
      && IsTrace(EMPTY, ops, r.events, r.failed)
      && IsFifo(r.final, r.events) && (r.failed == None <==> HasRoom(Attempted(r)))
  {
    hide HasRoom, IsFifo, RunAll, Exec, IsTrace;
    RunAllIsATrace(EMPTY, ops);
    var r := RunAll(EMPTY, ops);
    RunAllIsARun(EMPTY, ops);
    RunIsFifo(r.events);
    if r.failed.Some? { FullFails(r.final, r.events, r.failed.value); }
  }

  // ---- the code -----------------------------------------------------------------------

  class Queue {
    const theQueue: array<Option<Item>>
    var startOfQueue: nat
    var endOfQueue: nat
    var frozen: bool
    ghost var model: Model

    ghost predicate Valid()
      reads this, theQueue
    {
      && theQueue.Length == QUEUE_LENGTH
      && startOfQueue == |model.taken| && endOfQueue == startOfQueue + |model.pending| <= QUEUE_LENGTH
      && frozen == model.frozen
      && forall i :: 0 <= i < |model.pending| ==> theQueue[startOfQueue + i] == Some(model.pending[i])
    }

    constructor ()
      ensures Valid() && fresh(theQueue) && model == EMPTY
    {
      theQueue := new Option<Item>[QUEUE_LENGTH](_ => None);
      startOfQueue, endOfQueue, frozen, model := 0, 0, false, EMPTY;
    }

    /** ok is false when the assertion on the end of the queue fails. */
    method Enqueue(item: Item) returns (ok: bool)
      requires Valid()
      modifies this, theQueue
      ensures Valid() && ok == Apply(old(model), Event.Enqueue(item)).Some?
      ensures model == if ok then Apply(old(model), Event.Enqueue(item)).value else old(model)
    {
      if endOfQueue >= QUEUE_LENGTH { return false; }
      model := Apply(model, Event.Enqueue(item)).value;
      if frozen { return true; }
      theQueue[endOfQueue] := Some(item);
      endOfQueue := endOfQueue + 1;
      return true;
    }

    method Dequeue() returns (item: Option<Item>)
      requires Valid()
      modifies this
      ensures Valid() && Some(model) == Apply(old(model), Event.Dequeue)
      ensures item == if old(model).pending == [] then None else Some(old(model).pending[0])
    {
      model := Apply(model, Event.Dequeue).value;
      if startOfQueue == endOfQueue { return None; }
      item := theQueue[startOfQueue];
      startOfQueue := startOfQueue + 1;
      assert forall i :: 0 <= i < |model.pending| ==> model.pending[i] == old(model).pending[i + 1];
    }

    method Count() returns (n: nat)
      requires Valid()
      ensures n == |model.pending|
    {
      return endOfQueue - startOfQueue;
    }

    method SetFrozen(frozen: bool)
      requires Valid()
      modifies this
      ensures Valid() && Some(model) == Apply(old(model), Event.SetFrozen(frozen))
    {
      this.frozen := frozen;
      model := Apply(model, Event.SetFrozen(frozen)).value;
    }

    method Clear()
      requires Valid()
      modifies this, theQueue
      ensures Valid() && Some(model) == Apply(old(model), Event.Clear)
      ensures forall i :: old(startOfQueue) <= i < old(endOfQueue) ==> theQueue[i] == None
    {
      for i := startOfQueue to endOfQueue
        invariant forall j :: startOfQueue <= j < i ==> theQueue[j] == None
        invariant startOfQueue == old(startOfQueue) && endOfQueue == old(endOfQueue)
        invariant frozen == old(frozen) && model == old(model)
      {
        theQueue[i] := None;
      }
      startOfQueue, endOfQueue := 0, 0;
      model := Apply(model, Event.Clear).value;
    }

    /** What the item does while it is invoked. */
    method Act(actions: seq<Action>) returns (ok: bool)
      requires Valid()
      modifies this, theQueue
      ensures Valid() && model == Perform(old(model), actions, 0).0
      ensures ok <==> Perform(old(model), actions, 0).1 == |actions|
    {
      for i := 0 to |actions|
        invariant Valid() && Perform(model, actions, i) == Perform(old(model), actions, 0)
      {
        match actions[i]
        case Enqueue(item) =>
          ok := this.Enqueue(item);
          if !ok { return; }
        case SetFrozen(b) => this.SetFrozen(b);
      }
      return true;
    }

    /** invoke says what the k-th item invoked does; true when all work is done. */
    method ProcessWork(invoke: (Item, nat) -> Invocation) returns (outcome: Outcome)
      requires Valid()
      modifies this, theQueue
      ensures Valid()
      ensures outcome == Process(old(model), 0, invoke).outcome && model == Process(old(model), 0, invoke).final
    {
      var startedLoad := false;
      var invoked := 0;
      var count := Count();
      while !startedLoad && count != 0
        invariant Valid() && count == |model.pending|
        invariant startedLoad ==>
          var r := Process(old(model), 0, invoke);
          r.outcome == Done(false) && model == r.final
        invariant !startedLoad ==>
          var r, rest := Process(old(model), 0, invoke), Process(model, invoked, invoke);
          r.outcome == rest.outcome && r.final == rest.final
        decreases QUEUE_LENGTH - startOfQueue
      {
        var item := Dequeue();
        var invocation := invoke(item.value, invoked);
        PerformIsARun(model, invocation.actions, 0);
        var ok := Act(invocation.actions);
        if !ok { return Asserted; }
        startedLoad := invocation.startedLoad;
        invoked := invoked + 1;
        count := Count();
      }
      return Done(!startedLoad);
    }

    /** A whole run against the code follows the value; false as soon as the assertion fails. */
    method Drive(events: seq<Event>) returns (ok: bool)
      requires Valid() && model == EMPTY
      modifies this, theQueue
      ensures Valid() && ok == HasRoom(events) && (ok ==> Exec(EMPTY, events) == Some(model))
    {
      for i := 0 to |events|
        invariant Valid() && Exec(EMPTY, events[..i]) == Some(model)
      {
        assert events[..i + 1][..i] == events[..i];
        match events[i]
        case Enqueue(item) =>
          ok := this.Enqueue(item);
          if !ok {
            FailureIsFinal(events, i + 1);
            RunIsFifo(events);
            return;
          }
        case Dequeue => var _ := this.Dequeue();
        case SetFrozen(b) => this.SetFrozen(b);
        case Clear => this.Clear();
      }
      assert events[..|events|] == events;
      RunIsFifo(events);
      return true;
    }
  }

  /** As Drive, with processWork among the operations. */
  method DriveAll(queue: Queue, ops: seq<Operation>) returns (ok: bool)
    requires queue.Valid() && queue.model == EMPTY
    modifies queue, queue.theQueue
    ensures queue.Valid() && ok == (RunAll(EMPTY, ops).failed == None) && queue.model == RunAll(EMPTY, ops).final
  {
    for i := 0 to |ops|
      invariant queue.Valid()
      invariant RunAll(EMPTY, ops).failed == RunAll(queue.model, ops[i..]).failed
      invariant RunAll(EMPTY, ops).final == RunAll(queue.model, ops[i..]).final
    {
      assert ops[i..][0] == ops[i] && ops[i..][1..] == ops[i + 1..];
      OperateIsARun(queue.model, ops[i]);
      ok := Do(queue, ops[i]);
      if !ok { return; }
    }
    return true;
  }

  method Do(queue: Queue, op: Operation) returns (ok: bool)
    requires queue.Valid()
    modifies queue, queue.theQueue
    ensures queue.Valid() && ok == (Operate(old(queue.model), op).failed == None)
    ensures queue.model == Operate(old(queue.model), op).final
  {
    ok := true;
    match op
    case ProcessWork(invoke) =>
      ProcessWorkIsARun(queue.model, 0, invoke);
      var outcome := queue.ProcessWork(invoke);
      ok := !outcome.Asserted?;
    case Plain(Enqueue(item)) => ok := queue.Enqueue(item);
    case Plain(Dequeue) => var _ := queue.Dequeue();
    case Plain(SetFrozen(frozen)) => queue.SetFrozen(frozen);
    case Plain(Clear) => queue.Clear();
  }

  lemma {:induction false} FailureIsFinal(events: seq<Event>, i: nat)
    requires i <= |events| && Exec(EMPTY, events[..i]).None?
    ensures Exec(EMPTY, events).None?
    decreases |events|
  {
    if i < |events| {
      var init := events[..|events| - 1];
      assert init[..i] == events[..i];
      FailureIsFinal(init, i);
    } else {
      assert events[..i] == events;
    }
  }
}
