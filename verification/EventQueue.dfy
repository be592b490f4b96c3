/** The watcher's two threads: one appends events to a shared queue, the other delivers them. */
module EventQueue {
  import opened Options
  import opened Sequences

  /** Who holds the mutex of the queue. */
  datatype Owner = Nobody | Producer | Consumer

  /** Where the callback thread stands. */
  datatype Control =
    | LoopTest    // about to read the destroy flag
    | Locking     // waiting for the mutex at the top of the loop
    | Checking    // holds the mutex, about to test whether there is anything to wait for
    | Waiting     // blocked on the condition variable, mutex released
    | Swapping    // holds the mutex, about to take the queue
    | Unlocking   // holds the mutex, queue taken
    | Delivering  // calling back for the batch
    | Done

  /** `queue`, `owner` and `destroyed` are shared; `appending` is what the producer still has to append
      under its lock; `batch` and `next` belong to the callback thread. `produced`, `released` and
      `delivered` record the history. */
  datatype State<T> = State(
    queue: seq<T>, owner: Owner, destroyed: bool,
    appending: seq<T>,
    control: Control, batch: seq<T>, next: nat,
    produced: seq<T>, released: seq<seq<T>>, current: seq<T>, delivered: seq<T>)

  function Initial<T>(): State<T> {
    State([], Nobody, false, [], LoopTest, [], 0, [], [], [], [])
  }

  /** The steps of the producer, of whoever destroys the watcher, and of the callback thread. */
  datatype Step<T> =
    | ProducerLocks(events: seq<T>)
    | ProducerAppends
    | ProducerUnlocks
    | Destroy
    | TestFlag
    | ConsumerLocks
    | CheckQueue
    | WakeUp
    | Swap
    | ConsumerUnlocks
    | Deliver
    | EndBatch
    | CallbackFails  // an exception other than std::exception leaves the thread function

  predicate Enabled<T>(s: State<T>, step: Step<T>) {
    match step
    case ProducerLocks(_) => s.owner == Nobody
    case ProducerAppends => s.owner == Producer && s.appending != []
    case ProducerUnlocks => s.owner == Producer && s.appending == []
    case Destroy => true
    case TestFlag => s.control == LoopTest
    case ConsumerLocks => s.control == Locking && s.owner == Nobody
    case CheckQueue => s.control == Checking
    case WakeUp => s.control == Waiting && s.owner == Nobody
    case Swap => s.control == Swapping
    case ConsumerUnlocks => s.control == Unlocking
    case Deliver => s.control == Delivering && s.next < |s.batch|
    case EndBatch => s.control == Delivering && s.next >= |s.batch|
    case CallbackFails => s.control == Delivering && s.next < |s.batch|
  }

  function Apply<T>(s: State<T>, step: Step<T>): State<T>
    requires Enabled(s, step)
  {
    match step
    case ProducerLocks(events) => s.(owner := Producer, appending := events, current := [])
    case ProducerAppends =>
      s.(queue := s.queue + [s.appending[0]], appending := s.appending[1..],
         produced := s.produced + [s.appending[0]], current := s.current + [s.appending[0]])
    case ProducerUnlocks => s.(owner := Nobody, released := s.released + [s.current], current := [])
    case Destroy => s.(destroyed := true)
    case TestFlag => s.(control := if s.destroyed then Done else Locking)
    case ConsumerLocks => s.(control := Checking, owner := Consumer)
    case CheckQueue =>
      if s.queue == [] && !s.destroyed then s.(control := Waiting, owner := Nobody) else s.(control := Swapping)
    case WakeUp =>  // also without cause: the predicate is tested again under the mutex
      if s.queue == [] && !s.destroyed then s else s.(control := Swapping, owner := Consumer)
    case Swap => s.(control := Unlocking, batch := s.queue, queue := [], next := 0)
    case ConsumerUnlocks => s.(control := Delivering, owner := Nobody)
    case Deliver => s.(delivered := s.delivered + [s.batch[s.next]], next := s.next + 1)
    case EndBatch => s.(control := LoopTest, batch := [], next := 0)
    case CallbackFails => s.(delivered := s.delivered + [s.batch[s.next]], next := s.next + 1, control := Done)
  }

  /** The state an interleaving leads to, if each step is enabled where it is taken. */
  function After<T>(steps: seq<Step<T>>): Option<State<T>> {
    if steps == [] then Some(Initial())
    else
      match After(steps[..|steps| - 1])
      case None => None
      case Some(s) => if Enabled(s, steps[|steps| - 1]) then Some(Apply(s, steps[|steps| - 1])) else None
  }

  predicate HoldsMutex(c: Control) {
    c == Checking || c == Swapping || c == Unlocking
  }

  /** Nothing is lost, duplicated or reordered on the way from the producer to the callback. */
  ghost predicate Conserved<T>(s: State<T>) {
    s.next <= |s.batch| && s.delivered + s.batch[s.next..] + s.queue == s.produced
  }

  /** Which parts of the state go with which control points and lock owners. */
  ghost predicate ControlInv<T>(s: State<T>) {
    && (s.owner == Consumer <==> HoldsMutex(s.control))
    && (s.batch != [] ==> s.control == Unlocking || s.control == Delivering || s.control == Done)
    && (s.owner != Producer ==> s.current == [])
    && (s.control == Swapping && s.queue == [] ==> s.destroyed)
  }

  /** Everything produced comes from the producer's finished and current appends. */
  ghost predicate BatchInv<T>(s: State<T>) {
    s.produced == Flatten(s.released) + s.current
  }

  ghost predicate Inv<T>(s: State<T>) {
    Conserved(s) && ControlInv(s) && BatchInv(s)
  }

  lemma StepKeepsConserved<T>(s: State<T>, step: Step<T>)
    requires Conserved(s) && ControlInv(s) && Enabled(s, step)
    ensures Conserved(Apply(s, step))
  {
    match step
    case ProducerAppends => AppendOne(s.delivered + s.batch[s.next..], s.queue, s.appending[0]);
    case Swap => NothingBetween(s.delivered, s.queue);
    case Deliver => DeliverOne(s.delivered, s.batch, s.next);
    case CallbackFails => DeliverOne(s.delivered, s.batch, s.next);
    case EndBatch => assert s.batch[s.next..] == [];
    case _ =>
  }

  lemma AppendOne<T>(a: seq<T>, b: seq<T>, x: T)
    ensures a + (b + [x]) == a + b + [x]
  {
  }

  lemma NothingBetween<T>(a: seq<T>, b: seq<T>)
    ensures a + [] + b == a + b && a + b + [] == a + b
  {
  }

  lemma DeliverOne<T>(delivered: seq<T>, batch: seq<T>, next: nat)
    requires next < |batch|
    ensures delivered + [batch[next]] + batch[next + 1..] == delivered + batch[next..]
  {
    assert batch[next..] == [batch[next]] + batch[next + 1..];
  }

  lemma IsPrefix<T>(a: seq<T>, b: seq<T>, c: seq<T>)
    ensures a <= a + b + c && (a + b + c)[|a|..] == b + c
  {
  }

  lemma StepKeepsControlInv<T>(s: State<T>, step: Step<T>)
    requires ControlInv(s) && Enabled(s, step)
    ensures ControlInv(Apply(s, step))
  {
  }

  lemma StepKeepsBatchInv<T>(s: State<T>, step: Step<T>)
    requires ControlInv(s) && BatchInv(s) && Enabled(s, step)
    ensures BatchInv(Apply(s, step))
  {
    match step
    case ProducerAppends =>
    case ProducerUnlocks => FlattenSnoc(s.released, s.current);
    case _ =>
  }

  lemma {:induction false} RunsKeepInv<T>(steps: seq<Step<T>>)
    requires After(steps).Some?
    ensures Inv(After(steps).value)
  {
    if steps != [] {
      RunsKeepInv(steps[..|steps| - 1]);
      var s := After(steps[..|steps| - 1]).value;
      StepKeepsConserved(s, steps[|steps| - 1]);
      StepKeepsControlInv(s, steps[|steps| - 1]);
      StepKeepsBatchInv(s, steps[|steps| - 1]);
    }
  }

  /** In every interleaving the delivered events are a prefix of the produced ones, and what is
      missing is exactly the rest of the batch and the queue, in this order. */
  lemma DeliveredIsPrefix<T>(steps: seq<Step<T>>)
    requires After(steps).Some?
    ensures var s := After(steps).value;
      && s.next <= |s.batch| && s.delivered <= s.produced
      && s.produced[|s.delivered|..] == s.batch[s.next..] + s.queue
  {
    RunsKeepInv(steps);
    hide After;
    var s := After(steps).value;
    IsPrefix(s.delivered, s.batch[s.next..], s.queue);
  }

  /** The callback thread takes whole batches: when it swaps, the queue holds no part of an unfinished
      one. It takes an empty queue only when the watcher is being destroyed. */
  lemma SwapTakesWholeBatches<T>(steps: seq<Step<T>>)
    requires After(steps).Some? && After(steps).value.control == Swapping
    ensures var s := After(steps).value;
      s.delivered + s.queue == Flatten(s.released) && (s.queue == [] ==> s.destroyed)
  {
    RunsKeepInv(steps);
    hide After;
    NothingBetween(After(steps).value.delivered, After(steps).value.queue);
  }

  /** A thread that ended because of the flag has finished its batch: only queued events are undelivered. */
  lemma EndedThreadFinishedBatch<T>(steps: seq<Step<T>>)
    requires After(steps).Some? && After(steps).value.control == Done
    requires forall i :: 0 <= i < |steps| ==> !steps[i].CallbackFails?
    ensures var s := After(steps).value;
      s.destroyed && s.delivered + s.queue == s.produced
  {
    RunsKeepInv(steps);
    EndedByFlag(steps);
    hide After;
    NothingBetween(After(steps).value.delivered, After(steps).value.queue);
  }

  lemma {:induction false} EndedByFlag<T>(steps: seq<Step<T>>)
    requires After(steps).Some? && After(steps).value.control == Done
    requires forall i :: 0 <= i < |steps| ==> !steps[i].CallbackFails?
    ensures After(steps).value.batch == [] && After(steps).value.destroyed
  {
    var init := steps[..|steps| - 1];
    RunsKeepInv(init);
    assert forall i :: 0 <= i < |init| ==> init[i] == steps[i];
    if After(init).value.control == Done {
      EndedByFlag(init);
    }
  }

  lemma {:induction false} DoneStays<T>(s: State<T>, more: seq<Step<T>>)
    requires s.control == Done && From(s, more).Some?
    ensures From(s, more).value.control == Done && From(s, more).value.delivered == s.delivered
    decreases |more|
  {
    if more != [] {
      DoneStays(Apply(s, more[0]), more[1..]);
    }
  }

  /** A callback that fails with anything but a standard exception is the last one. */
  lemma NothingAfterFailure<T>(s: State<T>, more: seq<Step<T>>)
    requires Enabled(s, CallbackFails) && From(s, [CallbackFails] + more).Some?
    ensures var end := From(s, [CallbackFails] + more).value;
      end.delivered == s.delivered + [s.batch[s.next]] && end.control == Done
  {
    assert ([CallbackFails] + more)[1..] == more;
    DoneStays(Apply(s, CallbackFails), more);
  }

  // --- What the threads can do ---

  /** The state that steps lead to from `s`, if each is enabled where it is taken. */
  function From<T>(s: State<T>, steps: seq<Step<T>>): Option<State<T>>
    decreases |steps|
  {
    if steps == [] then Some(s)
    else if Enabled(s, steps[0]) then From(Apply(s, steps[0]), steps[1..])
    else None
  }

  lemma AfterOne<T>(steps: seq<Step<T>>, step: Step<T>)
    requires After(steps).Some? && Enabled(After(steps).value, step)
    ensures After(steps + [step]) == Some(Apply(After(steps).value, step))
  {
    hide Enabled, Apply;
    assert (steps + [step])[..|steps + [step]| - 1] == steps;
  }

  lemma {:induction false} AfterThen<T>(steps: seq<Step<T>>, more: seq<Step<T>>)
    requires After(steps).Some? && From(After(steps).value, more).Some?
    ensures After(steps + more) == From(After(steps).value, more)
    decreases |more|
  {
    hide Enabled, Apply, After;
    if more == [] {
      assert steps + more == steps;
    } else {
      AfterOne(steps, more[0]);
      AfterThen(steps + [more[0]], more[1..]);
      assert steps + [more[0]] + more[1..] == steps + more;
    }
  }

  lemma {:induction false} FromThen<T>(s: State<T>, a: seq<Step<T>>, b: seq<Step<T>>)
    requires From(s, a).Some?
    ensures From(s, a + b) == From(From(s, a).value, b)
    decreases |a|
  {
    hide Enabled, Apply;
    if a == [] {
      assert a + b == b;
    } else {
      FromThen(Apply(s, a[0]), a[1..], b);
      assert (a + b)[0] == a[0] && (a + b)[1..] == a[1..] + b;
    }
  }

  function Repeat<S>(step: S, n: nat): seq<S> {
    if n == 0 then [] else [step] + Repeat(step, n - 1)
  }

  lemma {:induction false} DeliverAll<T>(s: State<T>, n: nat)
    requires s.control == Delivering && s.next + n == |s.batch|
    ensures From(s, Repeat(Deliver, n))
      == Some(s.(delivered := s.delivered + s.batch[s.next..], next := |s.batch|))
    decreases n
  {
    if n == 0 {
      assert s.batch[s.next..] == [] && s.delivered + [] == s.delivered;
    } else {
      DeliverAll(Apply(s, Deliver), n - 1);
      DeliverOne(s.delivered, s.batch, s.next);
      assert Repeat<Step<T>>(Deliver, n)[1..] == Repeat(Deliver, n - 1);
    }
  }

  /** From where the mutex is held and the queue may be taken, to the top of the loop. */
  function TakeAndDeliver<T>(n: nat): seq<Step<T>> {
    [Swap, ConsumerUnlocks] + Repeat(Deliver, n) + [EndBatch]
  }

  /** The callback thread has delivered everything and is back at the top of its loop. */
  ghost predicate Drained<T>(before: State<T>, after: State<T>) {
    && after.queue == [] && after.owner == Nobody && after.control == LoopTest
    && after.delivered == after.produced == before.produced && after.destroyed == before.destroyed
  }

  lemma TakenIsDelivered<T>(s: State<T>)
    requires Inv(s) && s.control == Swapping
    ensures From(s, TakeAndDeliver(|s.queue|)).Some? && Drained(s, From(s, TakeAndDeliver(|s.queue|)).value)
  {
    NothingBetween(s.delivered, s.queue);
    var free := Freed(s);
    var n, first, rest := |s.queue|, [Swap, ConsumerUnlocks], Repeat(Deliver, |s.queue|);
    hide Enabled, Apply, From, Inv;
    DeliverAll(free, n);
    FromThen(s, first, rest);
    assert free.batch[0..] == s.queue;
    var done := free.(delivered := s.delivered + s.queue, next := n);
    AtEnd(done);
    FromThen(s, first + rest, [EndBatch]);
  }

  /** The queue taken and the mutex released. */
  lemma Freed<T>(s: State<T>) returns (free: State<T>)
    requires s.control == Swapping
    ensures free == s.(control := Delivering, owner := Nobody, batch := s.queue, queue := [], next := 0)
    ensures From(s, [Swap, ConsumerUnlocks]) == Some(free)
  {
    var steps: seq<Step<T>> := [Swap, ConsumerUnlocks];
    assert steps[1..] == [ConsumerUnlocks] && steps[1..][1..] == [];
    free := Apply(Apply(s, Swap), ConsumerUnlocks);
  }

  lemma AtEnd<T>(s: State<T>)
    requires s.control == Delivering && s.next >= |s.batch|
    ensures From(s, [EndBatch]) == Some(s.(control := LoopTest, batch := [], next := 0))
  {
    var steps: seq<Step<T>> := [EndBatch];
    assert steps[1..] == [];
  }

  lemma StepKeepsInv<T>(s: State<T>, step: Step<T>)
    requires Inv(s) && Enabled(s, step)
    ensures Inv(Apply(s, step))
  {
    StepKeepsConserved(s, step);
    StepKeepsControlInv(s, step);
    StepKeepsBatchInv(s, step);
  }

  /** How the thread gets to take the queue, from the wait or from the top of its loop. */
  function Resume<T>(control: Control): seq<Step<T>> {
    if control == Waiting then [WakeUp] else [TestFlag, ConsumerLocks, CheckQueue]
  }

  /** The mutex is free, and the thread waits with a reason to go on, or is about to find one. */
  ghost predicate CanResume<T>(s: State<T>) {
    && s.owner == Nobody
    && ((s.control == Waiting && (s.queue != [] || s.destroyed))
      || (s.control == LoopTest && s.queue != [] && !s.destroyed))
  }

  lemma Resumed<T>(s: State<T>) returns (t: State<T>)
    requires Inv(s) && CanResume(s)
    ensures From(s, Resume(s.control)) == Some(t) && Inv(t) && t.control == Swapping
    ensures t.queue == s.queue && t.produced == s.produced && t.destroyed == s.destroyed
  {
    hide Inv;
    if s.control == Waiting {
      t := Apply(s, WakeUp);
      StepKeepsInv(s, WakeUp);
      assert Resume<T>(Waiting)[1..] == [];
    } else {
      var tested := Apply(s, TestFlag);
      var locked := Apply(tested, ConsumerLocks);
      t := Apply(locked, CheckQueue);
      StepKeepsInv(s, TestFlag);
      StepKeepsInv(tested, ConsumerLocks);
      StepKeepsInv(locked, CheckQueue);
      var steps: seq<Step<T>> := Resume(LoopTest);
      assert steps[1..] == [ConsumerLocks, CheckQueue] && steps[1..][1..] == [CheckQueue];
      assert steps[1..][1..][1..] == [];
    }
  }

  function Drain<T>(control: Control, n: nat): seq<Step<T>> {
    Resume(control) + TakeAndDeliver(n)
  }

  lemma ThreadDrains<T>(s: State<T>)
    requires Inv(s) && CanResume(s)
    ensures From(s, Drain(s.control, |s.queue|)).Some? && Drained(s, From(s, Drain(s.control, |s.queue|)).value)
  {
    hide Inv, Resume, TakeAndDeliver;
    var t := Resumed(s);
    TakenIsDelivered(t);
    FromThen(s, Resume(s.control), TakeAndDeliver(|s.queue|));
  }

  /** The producer's turn: its events under one lock. */
  function Produce<T>(events: seq<T>): seq<Step<T>> {
    [ProducerLocks(events)] + Repeat(ProducerAppends, |events|) + [ProducerUnlocks]
  }

  function Produced<T>(s: State<T>, events: seq<T>): State<T> {
    s.(queue := s.queue + events, produced := s.produced + events, released := s.released + [events],
       appending := [], current := [])
  }

  lemma {:induction false} AppendAll<T>(s: State<T>)
    requires s.owner == Producer
    ensures From(s, Repeat(ProducerAppends, |s.appending|))
      == Some(s.(queue := s.queue + s.appending, produced := s.produced + s.appending,
                 current := s.current + s.appending, appending := []))
    decreases |s.appending|
  {
    var x := s.appending;
    if x == [] {
      assert s.queue + [] == s.queue && s.produced + [] == s.produced && s.current + [] == s.current;
    } else {
      AppendAll(Apply(s, ProducerAppends));
      assert x == [x[0]] + x[1..];
      Associative(s.queue, [x[0]], x[1..]);
      Associative(s.produced, [x[0]], x[1..]);
      Associative(s.current, [x[0]], x[1..]);
      assert Repeat<Step<T>>(ProducerAppends, |x|)[1..] == Repeat(ProducerAppends, |x| - 1);
    }
  }

  lemma ProducerRuns<T>(s: State<T>, events: seq<T>)
    requires s.owner == Nobody
    ensures From(s, Produce(events)) == Some(Produced(s, events))
  {
    var locked := Apply(s, ProducerLocks(events));
    var first, rest := [ProducerLocks(events)], Repeat(ProducerAppends, |events|);
    assert first[1..] == [] && From(s, first) == Some(locked);
    AppendAll(locked);
    FromThen(s, first, rest);
    var appended := From(locked, rest).value;
    assert [] + events == events;
    FromThen(s, first + rest, [ProducerUnlocks]);
    assert From(appended, [ProducerUnlocks]) == Some(Apply(appended, ProducerUnlocks));
  }

  /** Whatever has happened, a thread that can go on can deliver all that has been produced. */
  lemma QueueDrains<T>(steps: seq<Step<T>>)
    requires After(steps).Some? && CanResume(After(steps).value)
    ensures var s := After(steps).value;
      var end := After(steps + Drain(s.control, |s.queue|));
      end.Some? && Drained(s, end.value)
  {
    var s := After(steps).value;
    RunsKeepInv(steps);
    hide After, Inv, Drain, Enabled, Apply, From;
    ThreadDrains(s);
    AfterThen(steps, Drain(s.control, |s.queue|));
  }

  /** Whatever has happened, while the mutex is free and the thread waits or tests the flag: what the producer
      appends next can be delivered right away, behind everything produced before. */
  lemma EventsGetThrough<T>(steps: seq<Step<T>>, events: seq<T>)
    requires After(steps).Some? && events != []
    requires var s := After(steps).value;
      s.owner == Nobody && (s.control == Waiting || s.control == LoopTest) && !s.destroyed
    ensures var s := After(steps).value;
      var end := After(steps + Produce(events) + Drain(s.control, |s.queue| + |events|));
      && end.Some? && end.value.queue == [] && end.value.control == LoopTest
      && end.value.delivered == end.value.produced == s.produced + events
  {
    hide Enabled, Apply, After, From, Drain, Produce;
    var s := After(steps).value;
    ProducerRuns(s, events);
    AfterThen(steps, Produce(events));
    assert Produced(s, events).queue != [];
    QueueDrains(steps + Produce(events));
  }

  /** A destroyed watcher's thread that waits or tests the flag can end; a waiting one delivers all first. */
  lemma DestroyedThreadCanEnd<T>(steps: seq<Step<T>>)
    requires After(steps).Some?
    requires var s := After(steps).value;
      s.owner == Nobody && (s.control == Waiting || s.control == LoopTest) && s.destroyed
    ensures var s := After(steps).value;
      var last := if s.control == Waiting then Drain(Waiting, |s.queue|) else [];
      var end := After(steps + last + [TestFlag]);
      && end.Some? && end.value.control == Done
      && (s.control == Waiting ==> end.value.delivered == end.value.produced == s.produced)
  {
    var s := After(steps).value;
    if s.control == Waiting {
      QueueDrains(steps);
      AfterOne(steps + Drain(Waiting, |s.queue|), TestFlag);
    } else {
      assert steps + [] == steps;
      AfterOne(steps, TestFlag);
    }
  }
}
