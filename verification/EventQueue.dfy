/**
 Handing work to an event loop from other threads.  A producer appends a handler to a locked
 list and then adds one to an eventfd; the loop's thread waits until the eventfd is readable,
 resets it, and runs handlers until it finds the list empty.  A handler may itself hand over
 more work.

 `Next` is one atomic step of one thread; the theorems hold in every interleaving of any
 number of threads.  The classes are the sequential objects the steps act on.
 */
module EventQueues {
  import opened Basics

  /** What the loop's thread is doing.  `Waking` is a handler between its push and its wakeup. */
  datatype Consumer<H> =
    | Waiting                 // in epoll_wait
    | Notified                // the callback has been entered, the eventfd not yet read
    | Testing                 // about to ask whether the list is empty
    | Popping                 // it was not: about to take the first handler
    | Running(handler: H)
    | Waking(handler: H)

  /** `waking` holds the producers between push and wakeup; `pushed` and `started` are history. */
  datatype State<H> = State(
    queue: seq<H>, counter: nat, consumer: Consumer<H>, waking: set<nat>,
    pushed: seq<H>, started: seq<H>)

  datatype Step<H> =
    | Push(thread: nat, handler: H)
    | Wakeup(thread: nat)
    | Poll
    | Read
    | Test
    | Pop
    | Return
    | HandlerPush(handler: H)
    | HandlerWakeup

  const MAX_COUNTER: nat := 0xffff_ffff_ffff_fffe

  /** A non-blocking eventfd write of 1: it fails, changing nothing, once the counter is full. */
  function Bump(counter: nat): (c: nat)
    ensures c > 0
    ensures counter <= MAX_COUNTER ==> c <= MAX_COUNTER && (c == counter + 1 || c == counter == MAX_COUNTER)
  {
    if counter < MAX_COUNTER then counter + 1 else counter
  }

  /** The eventfd is created with 1000 in it, so the first callback may find nothing to do. */
  function Start<H>(): State<H> { State([], 1000, Waiting, {}, [], []) }

  predicate Enabled<H>(s: State<H>, step: Step<H>) {
    match step
    case Push(t, _) => t !in s.waking
    case Wakeup(t) => t in s.waking
    case Poll => s.consumer.Waiting? && s.counter > 0
    case Read => s.consumer.Notified?
    case Test => s.consumer.Testing?
    case Pop => s.consumer.Popping?
    case Return => s.consumer.Running?
    case HandlerPush(_) => s.consumer.Running?
    case HandlerWakeup => s.consumer.Waking?
  }

  /** Taking the front of an empty list is undefined: no successor. */
  function Next<H>(s: State<H>, step: Step<H>): Option<State<H>>
    requires Enabled(s, step)
  {
    match step
    case Push(t, h) => Some(s.(queue := s.queue + [h], pushed := s.pushed + [h], waking := s.waking + {t}))
    case Wakeup(t) => Some(s.(counter := Bump(s.counter), waking := s.waking - {t}))
    case Poll => Some(s.(consumer := Notified))
    case Read =>
      if s.counter == 0 then Some(s.(consumer := Waiting))
      else Some(s.(counter := 0, consumer := Testing))
    case Test => Some(s.(consumer := if s.queue == [] then Waiting else Popping))
    case Pop =>
      if s.queue == [] then None
      else Some(s.(queue := s.queue[1..], consumer := Running(s.queue[0]), started := s.started + [s.queue[0]]))
    case Return => Some(s.(consumer := Testing))
    case HandlerPush(h) =>
      Some(s.(queue := s.queue + [h], pushed := s.pushed + [h], consumer := Waking(s.consumer.handler)))
    case HandlerWakeup => Some(s.(counter := Bump(s.counter), consumer := Running(s.consumer.handler)))
  }

  /** `s` is where the steps lead from `from`. */
  ghost predicate Leads<H>(from: State<H>, steps: seq<Step<H>>, s: State<H>)
    decreases |steps|
  {
    if steps == [] then s == from
    else
      && Enabled(from, steps[0]) && Next(from, steps[0]).Some?
      && Leads(Next(from, steps[0]).value, steps[1..], s)
  }

  ghost predicate Reachable<H(!new)>(s: State<H>) {
    exists steps: seq<Step<H>> :: Leads(Start(), steps, s)
  }

  // ---------- What every step keeps ----------

  /** Work in the list is never forgotten: the eventfd is set, the loop is draining, or some
      thread is about to set it. */
  ghost predicate WakeupPending<H>(s: State<H>) {
    s.queue == [] || s.counter > 0 || s.waking != {} || !(s.consumer.Waiting? || s.consumer.Notified?)
  }

  ghost predicate Inv<H>(s: State<H>) {
    && WakeupPending(s)
    && s.started + s.queue == s.pushed
    && (s.consumer.Popping? ==> s.queue != [])
    && (s.consumer.Notified? ==> s.counter > 0)
    && RunsLastStarted(s)
  }

  /** The handler that runs is the one started last. */
  ghost predicate RunsLastStarted<H>(s: State<H>) {
    s.consumer.Running? || s.consumer.Waking? ==> s.started != [] && s.consumer.handler == s.started[|s.started| - 1]
  }

  lemma {:induction false} StepKeepsInv<H>(s: State<H>, step: Step<H>)
    requires Inv(s) && Enabled(s, step)
    ensures Next(s, step).Some? && Inv(Next(s, step).value)
  {
    match step
    case Push(t, h) =>
      assert s.started + (s.queue + [h]) == s.pushed + [h];
      assert t in Next(s, step).value.waking;
    case HandlerPush(h) => assert s.started + (s.queue + [h]) == s.pushed + [h];
    case Pop =>
      assert s.queue == [s.queue[0]] + s.queue[1..];
      assert (s.started + [s.queue[0]]) + s.queue[1..] == s.started + s.queue;
    case _ =>
  }

  lemma {:induction false} RunKeepsInv<H>(from: State<H>, steps: seq<Step<H>>, s: State<H>)
    requires Inv(from) && Leads(from, steps, s)
    ensures Inv(s)
    decreases |steps|
  {
    if steps != [] {
      StepKeepsInv(from, steps[0]);
      RunKeepsInv(Next(from, steps[0]).value, steps[1..], s);
    }
  }

  /** The handlers that the steps hand over, by whichever thread, in order. */
  function Handed<H>(steps: seq<Step<H>>): seq<H> {
    if steps == [] then []
    else
      (match steps[0]
       case Push(_, h) => [h]
       case HandlerPush(h) => [h]
       case _ => []) + Handed(steps[1..])
  }

  lemma {:induction false} StepHands<H>(s: State<H>, step: Step<H>)
    requires Enabled(s, step) && Next(s, step).Some?
    ensures Next(s, step).value.pushed == s.pushed + Handed([step])
  {
    assert [step][1..] == [];
    assert s.pushed + [] == s.pushed;
  }

  lemma {:induction false} RunHands<H>(from: State<H>, steps: seq<Step<H>>, s: State<H>)
    requires Leads(from, steps, s)
    ensures s.pushed == from.pushed + Handed(steps)
    decreases |steps|
  {
    hide Next, Enabled;
    if steps != [] {
      StepHands(from, steps[0]);
      RunHands(Next(from, steps[0]).value, steps[1..], s);
      assert [steps[0]][1..] == [];
      assert Handed(steps) == Handed([steps[0]]) + Handed(steps[1..]);
    }
  }

  /** In every run no wakeup is lost; the handlers started so far, followed by those in the list,
      are exactly the handlers that the steps handed over, in order, and the one that runs is the one
      started last; and no step of any thread takes from an empty list. */
  lemma {:induction false} NoLostWakeup<H(!new)>(steps: seq<Step<H>>, s: State<H>)
    requires Leads(Start(), steps, s)
    ensures WakeupPending(s)
    ensures s.started + s.queue == Handed(steps) && RunsLastStarted(s)
    ensures forall step :: Enabled(s, step) ==> Next(s, step).Some?
  {
    hide Leads, Next, Enabled, Handed;
    RunKeepsInv(Start(), steps, s);
    RunHands(Start(), steps, s);
    assert [] + Handed(steps) == Handed(steps);
    forall step | Enabled(s, step)
      ensures Next(s, step).Some?
    {
      StepKeepsInv(s, step);
    }
  }

  // ---------- The eventfd ----------

  function Wakeups<H>(steps: seq<Step<H>>): nat {
    if steps == [] then 0
    else (if steps[0].Wakeup? || steps[0].HandlerWakeup? then 1 else 0) + Wakeups(steps[1..])
  }

  predicate NeverReads<H>(steps: seq<Step<H>>) { forall i :: 0 <= i < |steps| ==> !steps[i].Read? }

  function Min(a: nat, b: nat): nat { if a < b then a else b }

  /** Between two reads the eventfd counts the wakeups, up to what it can hold. */
  lemma {:induction false} CounterCounts<H>(from: State<H>, steps: seq<Step<H>>, s: State<H>)
    requires Leads(from, steps, s) && NeverReads(steps) && from.counter <= MAX_COUNTER
    ensures s.counter == Min(MAX_COUNTER, from.counter + Wakeups(steps))
    decreases |steps|
  {
    if steps != [] {
      var next := Next(from, steps[0]).value;
      assert !steps[0].Read?;
      CounterCounts(next, steps[1..], s);
    }
  }

  /** A read takes everything, and the loop goes on to the list; if there is nothing, it goes back. */
  lemma {:induction false} ReadResets<H>(s: State<H>)
    requires s.consumer.Notified?
    ensures s.counter > 0 ==> Next(s, Read) == Some(s.(counter := 0, consumer := Testing))
    ensures s.counter == 0 ==> Next(s, Read) == Some(s.(consumer := Waiting))
  {
  }

  /** The eventfd starts with 1000 in it, so that the loop looks at the list once without being woken. */
  lemma {:induction false} FirstLook<H>(steps: seq<Step<H>>, s: State<H>)
    requires Leads(Start(), steps, s) && NeverReads(steps)
    ensures s.counter == Min(MAX_COUNTER, 1000 + Wakeups(steps))
  {
    CounterCounts(Start(), steps, s);
  }

  // ---------- Progress ----------

  predicate IsConsumerStep<H>(step: Step<H>) {
    step.Poll? || step.Read? || step.Test? || step.Pop? || step.Return?
  }

  /** The loop's own next step, if it is not inside a handler that is still handing over work. */
  function ConsumerStep<H>(s: State<H>): Step<H>
    requires !s.consumer.Waking?
  {
    match s.consumer
    case Waiting => Poll
    case Notified => Read
    case Testing => Test
    case Popping => Pop
    case Running(_) => Return
  }

  /** While a handler is queued, the loop can step unless a producer still has its wakeup to do:
      the loop is never asleep on work that nobody will announce. */
  lemma {:induction false} NeverStuck<H(!new)>(s: State<H>)
    requires Reachable(s) && s.queue != []
    ensures s.consumer.Waking? || Enabled(s, ConsumerStep(s)) || exists t :: t in s.waking
  {
    var steps: seq<Step<H>> :| Leads(Start(), steps, s);
    RunKeepsInv(Start(), steps, s);
  }

  /** Once every thread has finished and the loop sleeps, everything handed over has been started. */
  lemma {:induction false} Quiescent<H(!new)>(steps: seq<Step<H>>, s: State<H>)
    requires Leads(Start(), steps, s)
    requires s.consumer.Waiting? && s.counter == 0 && s.waking == {}
    ensures s.started == Handed(steps)
  {
    hide Leads, Handed;
    NoLostWakeup(steps, s);
    assert s.started + [] == s.started;
  }

  /** How many steps of the loop lie before the start of the handler at position `p`. */
  function StepsBefore<H>(s: State<H>, p: nat): nat {
    3 * p + match s.consumer
            case Waiting => 4
            case Notified => 3
            case Testing => 2
            case Popping => 1
            case Running(_) => 3
            case Waking(_) => 3
  }

  function ConsumerSteps<H>(steps: seq<Step<H>>): nat {
    if steps == [] then 0
    else (if IsConsumerStep(steps[0]) then 1 else 0) + ConsumerSteps(steps[1..])
  }

  lemma {:induction false} StartedOnlyGrows<H>(from: State<H>, steps: seq<Step<H>>, s: State<H>)
    requires Leads(from, steps, s)
    ensures from.started <= s.started
    decreases |steps|
  {
    if steps != [] {
      StartedOnlyGrows(Next(from, steps[0]).value, steps[1..], s);
    }
  }

  lemma {:induction false} BoundedWaitFrom<H>(from: State<H>, steps: seq<Step<H>>, s: State<H>, p: nat)
    requires Inv(from) && Leads(from, steps, s) && p < |from.queue|
    requires ConsumerSteps(steps) >= StepsBefore(from, p)
    ensures from.started + from.queue[..p + 1] <= s.started
    decreases |steps|
  {
    hide Next, Enabled, Inv, StepsBefore;
    assert steps != [] by { SomeStep(from, p); }
    var step := steps[0];
    var next := Next(from, step).value;
    StepKeepsInv(from, step);
    StepCounts(from, step, p);
    if step.Pop? && p == 0 {
      assert from.queue[..1] == [from.queue[0]];
      StartedOnlyGrows(next, steps[1..], s);
    } else if step.Pop? {
      BoundedWaitFrom(next, steps[1..], s, p - 1);
      assert from.started + from.queue[..p + 1] == next.started + next.queue[..p];
    } else {
      BoundedWaitFrom(next, steps[1..], s, p);
      assert from.queue[..p + 1] == next.queue[..p + 1];
    }
  }

  lemma {:induction false} SomeStep<H>(from: State<H>, p: nat)
    ensures StepsBefore(from, p) > 0
  {
  }

  /** What one step does to the list, and to the count of steps still needed. */
  lemma {:induction false} StepCounts<H>(from: State<H>, step: Step<H>, p: nat)
    requires Inv(from) && p < |from.queue| && Enabled(from, step) && Next(from, step).Some?
    ensures var next, cost := Next(from, step).value, if IsConsumerStep(step) then 1 else 0;
            && (step.Pop? ==> next.queue == from.queue[1..] && next.started == from.started + [from.queue[0]])
            && (step.Pop? && p > 0 ==> StepsBefore(next, p - 1) <= StepsBefore(from, p) - cost)
            && (!step.Pop? ==> from.queue <= next.queue && next.started == from.started)
            && (!step.Pop? ==> StepsBefore(next, p) <= StepsBefore(from, p) - cost)
  {
  }

  /** Whatever the other threads and the handlers do in between, the handler at position `p` has
      been started, after exactly the handlers ahead of it, once the loop has taken
      `StepsBefore` steps. */
  lemma {:induction false} BoundedWait<H(!new)>(from: State<H>, steps: seq<Step<H>>, s: State<H>, p: nat)
    requires Reachable(from) && Leads(from, steps, s) && p < |from.queue|
    requires ConsumerSteps(steps) >= StepsBefore(from, p)
    ensures from.started + from.queue[..p + 1] <= s.started
  {
    var before: seq<Step<H>> :| Leads(Start(), before, from);
    RunKeepsInv(Start(), before, from);
    BoundedWaitFrom(from, steps, s, p);
  }

  // ---------- Threads that are left alone ----------

  /** What the loop does about a list of `n` handlers that hand over nothing more. */
  function DrainSteps<H>(n: nat): seq<Step<H>> {
    if n == 0 then [Test] else [Test, Pop, Return] + DrainSteps<H>(n - 1)
  }

  /** The whole callback, from the poll to the test that finds the list empty. */
  function CallbackSteps<H>(n: nat): seq<Step<H>> { [Poll, Read] + DrainSteps<H>(n) }

  ghost function Drained<H>(s: State<H>): State<H> {
    s.(queue := [], counter := 0, consumer := Waiting, started := s.started + s.queue)
  }

  lemma {:induction false} DrainLeads<H>(s: State<H>)
    requires s.consumer.Testing? && s.counter == 0
    ensures Leads(s, DrainSteps(|s.queue|), Drained(s))
    decreases |s.queue|
  {
    var steps := DrainSteps<H>(|s.queue|);
    if s.queue == [] {
      assert steps[1..] == [] && s.started + [] == s.started;
      assert Leads(Next(s, Test).value, steps[1..], Drained(s));
    } else {
      var s1 := Next(s, Test).value;
      var s2 := Next(s1, Pop).value;
      var s3 := Next(s2, Return).value;
      assert s.queue == [s.queue[0]] + s.queue[1..];
      assert s3.started + s3.queue == s.started + s.queue;
      DrainLeads(s3);
      assert steps[1..][1..][1..] == DrainSteps(|s.queue| - 1);
      assert Leads(s2, steps[1..][1..], Drained(s)) && Leads(s1, steps[1..], Drained(s));
    }
  }

  /** A loop that nobody disturbs, waiting while the eventfd is set, takes these steps, and they
      start everything in the list, in order. */
  lemma {:induction false} CallbackLeads<H>(s: State<H>)
    requires s.consumer.Waiting? && s.counter > 0
    ensures Leads(s, CallbackSteps(|s.queue|), Drained(s))
  {
    hide DrainSteps;
    var s1 := Next(s, Poll).value;
    var s2 := Next(s1, Read).value;
    DrainLeads(s2);
    var steps := CallbackSteps<H>(|s.queue|);
    assert steps[1..][1..] == DrainSteps(|s.queue|);
    assert Leads(s1, steps[1..], Drained(s));
  }

  /** A producer that nobody disturbs. */
  lemma {:induction false} HandOverLeads<H>(s: State<H>, t: nat, h: H)
    requires t !in s.waking
    ensures Leads(s, [Push(t, h), Wakeup(t)],
                  s.(queue := s.queue + [h], pushed := s.pushed + [h], counter := Bump(s.counter)))
  {
    var s1 := Next(s, Push(t, h)).value;
    var s2 := Next(s1, Wakeup(t)).value;
    assert s2.waking == s.waking;
    var steps: seq<Step<H>> := [Push(t, h), Wakeup(t)];
    assert steps[1..][1..] == [] && Leads(s2, [], s2);
    assert Leads(s1, steps[1..], s2);
  }

  /** A handler that hands over more work: the loop will find it at the end of the list. */
  lemma {:induction false} HandlerHandsOver<H>(s: State<H>, h: H)
    requires s.consumer.Running?
    ensures Leads(s, [HandlerPush(h), HandlerWakeup],
                  s.(queue := s.queue + [h], pushed := s.pushed + [h], counter := Bump(s.counter)))
  {
    var s1 := Next(s, HandlerPush(h)).value;
    var s2 := Next(s1, HandlerWakeup).value;
    var steps: seq<Step<H>> := [HandlerPush(h), HandlerWakeup];
    assert steps[1..][1..] == [] && Leads(s2, [], s2);
    assert Leads(s1, steps[1..], s2);
  }

  // ---------- The objects ----------

  class BlockingQueue<T> {
    var queue_: seq<T>

    constructor ()
      ensures queue_ == []
    {
      queue_ := [];
    }

    method PushBack(e: T)
      modifies this
      ensures queue_ == old(queue_) + [e]
    {
      queue_ := queue_ + [e];
    }

    method PopFront() returns (t: T)
      requires queue_ != []
      modifies this
      ensures old(queue_) == [t] + queue_
    {
      t := queue_[0];
      queue_ := queue_[1..];
    }

    predicate Empty()
      reads this
    {
      queue_ == []
    }
  }

  class EventQueue<H> {
    const handlers: BlockingQueue<H>
    var counter: nat

    constructor ()
      ensures fresh(handlers) && handlers.queue_ == Start<H>().queue && counter == Start<H>().counter
    {
      handlers := new BlockingQueue<H>();
      counter := 1000;
    }

    method PushHandler(h: H)
      modifies handlers
      ensures handlers.queue_ == old(handlers.queue_) + [h]
    {
      handlers.PushBack(h);
    }

    method Wake()
      modifies this`counter
      ensures counter == Bump(old(counter))
    {
      if counter < MAX_COUNTER {
        counter := counter + 1;
      }
    }

    /** The objects are as the state says. */
    ghost predicate Shows(s: State<H>)
      reads this, handlers
    {
      s.queue == handlers.queue_ && s.counter == counter
    }

    /** `runEventHandler`: in a thread that nobody disturbs it takes the steps `Push` and `Wakeup`. */
    method RunEventHandler(h: H, ghost s: State<H>, ghost t: nat) returns (ghost s': State<H>)
      requires Shows(s) && t !in s.waking
      modifies this`counter, handlers
      ensures handlers.queue_ == old(handlers.queue_) + [h] && counter == Bump(old(counter))
      ensures Shows(s') && Leads(s, [Push(t, h), Wakeup(t)], s')
    {
      HandOverLeads(s, t, h);
      PushHandler(h);
      Wake();
      s' := s.(queue := s.queue + [h], pushed := s.pushed + [h], counter := Bump(s.counter));
    }

    /** The read callback when no other thread interferes: it runs the whole list, in order, and
        takes exactly the steps of the loop that do so. */
    method OnRead(ghost s: State<H>) returns (ran: seq<H>, ghost s': State<H>)
      requires Shows(s) && s.consumer.Waiting?
      modifies this`counter, handlers
      ensures counter == 0 && Shows(s')
      ensures old(counter) == 0 ==> ran == [] && s' == s
      ensures old(counter) > 0 ==> ran == old(handlers.queue_) && handlers.queue_ == []
      ensures old(counter) > 0 ==> Leads(s, CallbackSteps(|s.queue|), s') && s'.started == s.started + ran
    {
      ran, s' := [], s;
      if counter == 0 {
        return;
      }
      counter := 0;
      while !handlers.Empty()
        invariant ran + handlers.queue_ == old(handlers.queue_)
        invariant counter == 0
        decreases |handlers.queue_|
      {
        var f := handlers.PopFront();
        ran := ran + [f];
      }
      CallbackLeads(s);
      s' := Drained(s);
    }
  }
}
