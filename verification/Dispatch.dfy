/**
  The hand-off of control requests to the epoll thread.

  Any number of threads push a request that lives on their own stack, write to an
  eventfd and wait; the epoll thread wakes up when the eventfd's counter is
  positive, reads it down to zero, takes the whole queue, runs every request and
  fulfils its promise. Each action below is one step that other threads cannot
  split: an operation under the queue's mutex, one system call, or one use of a
  promise.
 */
module Dispatch {
  /** One control request: the item on its producer's stack. */
  type Item = nat

  /** The largest value an eventfd counter takes; a write that would pass it fails and changes nothing. */
  const COUNTER_MAX := 0xFFFF_FFFF_FFFF_FFFE

  /** Where a producer is. `Unwoken` waits like `Waiting`, but its write failed. */
  datatype Producer = Pushed | Waiting | Unwoken | Returned

  datatype Consumer =
    | Asleep
    | Reading
    | ToDrain
    | Running(batch: seq<Item>)
    | Finishing(item: Item, rest: seq<Item>)

  datatype State = State(
    queue: seq<Item>,
    counter: nat,
    producers: map<Item, Producer>,
    consumer: Consumer,
    done: set<Item>,
    pushed: seq<Item>,
    ran: seq<Item>)

  datatype Action =
    | Push(item: Item)
    | Write(item: Item)
    | WriteError(item: Item)
    | Return(item: Item)
    | Consume

  function Start(): State {
    State([], 0, map[], Asleep, {}, [], [])
  }

  // ---------- The steps ----------

  predicate Enabled(s: State, a: Action) {
    match a
    case Push(i) => i !in s.producers
    case Write(i) => i in s.producers && s.producers[i].Pushed?
    case WriteError(i) => i in s.producers && s.producers[i].Pushed?
    case Return(i) => i in s.producers && (s.producers[i].Waiting? || s.producers[i].Unwoken?) && i in s.done
    case Consume => !(s.consumer.Asleep? && s.counter == 0)
  }

  function Consumed(s: State): State
    requires Enabled(s, Consume)
  {
    match s.consumer
    case Asleep => s.(consumer := Reading)
    case Reading => if s.counter > 0 then s.(counter := 0) else s.(consumer := ToDrain)
    case ToDrain => s.(consumer := Running(s.queue), queue := [])
    case Running(batch) =>
      if batch == [] then s.(consumer := Asleep)
      else s.(consumer := Finishing(batch[0], batch[1..]), ran := s.ran + [batch[0]])
    case Finishing(item, rest) => s.(consumer := Running(rest), done := s.done + {item})
  }

  function Apply(s: State, a: Action): State
    requires Enabled(s, a)
  {
    match a
    case Push(i) => s.(queue := s.queue + [i], pushed := s.pushed + [i], producers := s.producers[i := Pushed])
    case Write(i) =>
      s.(counter := if s.counter < COUNTER_MAX then s.counter + 1 else s.counter,
         producers := s.producers[i := Waiting])
    case WriteError(i) => s.(producers := s.producers[i := Unwoken])
    case Return(i) => s.(producers := s.producers[i := Returned])
    case Consume => Consumed(s)
  }

  // ---------- Invariants ----------

  /** The requests the consumer has taken and not yet run. */
  function Batch(c: Consumer): seq<Item> {
    match c
    case Running(batch) => batch
    case Finishing(_, rest) => rest
    case _ => []
  }

  /** Every pointer that the queue or the consumer still holds. */
  function Held(s: State): seq<Item> {
    (if s.consumer.Finishing? then [s.consumer.item] else []) + Batch(s.consumer) + s.queue
  }

  ghost predicate Distinct(items: seq<Item>) {
    forall j, k :: 0 <= j < k < |items| ==> items[j] != items[k]
  }

  /** Requests run in the order in which they were pushed; none is lost and none is repeated. */
  ghost predicate InOrder(s: State) {
    && s.pushed == s.ran + Batch(s.consumer) + s.queue
    && Distinct(s.pushed)
    && (forall i :: i in s.producers <==> i in s.pushed)
  }

  /** A request is done exactly when it has run and the consumer has let go of it. */
  ghost predicate DoneIffRun(s: State) {
    && (forall i :: i in s.done ==> i in s.ran)
    && (forall i :: i in s.ran && i !in s.done ==> s.consumer.Finishing? && s.consumer.item == i)
    && (s.consumer.Finishing? ==> s.consumer.item in s.ran && s.consumer.item !in s.done)
  }

  /** Returned producers have had their request done. */
  ghost predicate Answered(s: State) {
    forall i :: i in s.producers && s.producers[i].Returned? ==> i in s.done
  }

  /** A wake-up is due, or under way and not yet past taking the queue. */
  predicate Due(s: State) {
    s.counter > 0 || s.consumer.Reading? || s.consumer.ToDrain?
  }

  /** A queued request whose write went through will be picked up. */
  ghost predicate Noticed(s: State) {
    forall i :: i in s.queue && i in s.producers && s.producers[i].Waiting? ==> Due(s)
  }

  ghost predicate Inv(s: State) {
    InOrder(s) && DoneIffRun(s) && Answered(s) && Noticed(s)
  }

  /** What is still to be run has not been run. */
  lemma NotRunYet(s: State, i: Item)
    requires InOrder(s) && i in Batch(s.consumer) + s.queue
    ensures i in s.pushed && i !in s.ran
  {
    var tail := Batch(s.consumer) + s.queue;
    var j :| 0 <= j < |tail| && tail[j] == i;
    assert s.pushed == s.ran + tail;
    assert s.pushed[|s.ran| + j] == i;
    assert forall k :: 0 <= k < |s.ran| ==> s.ran[k] == s.pushed[k];
  }

  lemma ConsumeKeepsOrder(s: State)
    requires InOrder(s) && Enabled(s, Consume)
    ensures InOrder(Consumed(s))
  {
    hide Distinct;
    var t := Consumed(s);
    if s.consumer.Running? && s.consumer.batch != [] {
      var batch := s.consumer.batch;
      assert batch == [batch[0]] + batch[1..];
      assert s.ran + batch == s.ran + [batch[0]] + batch[1..];
    } else if s.consumer.ToDrain? {
      assert s.ran + [] + s.queue == s.ran + s.queue + [];
    }
  }

  lemma ConsumeKeepsDone(s: State)
    requires InOrder(s) && DoneIffRun(s) && Enabled(s, Consume)
    ensures DoneIffRun(Consumed(s))
  {
    if s.consumer.Running? && s.consumer.batch != [] {
      assert (s.consumer.batch + s.queue)[0] == s.consumer.batch[0];
      NotRunYet(s, s.consumer.batch[0]);
    }
    hide InOrder;
  }

  /** Every step of every thread keeps the invariant. */
  lemma StepKeepsInv(s: State, a: Action)
    requires Inv(s) && Enabled(s, a)
    ensures Inv(Apply(s, a))
  {
    if a.Consume? {
      ConsumeKeepsOrder(s);
      ConsumeKeepsDone(s);
      ConsumeKeepsRest(s);
      hide InOrder;
      hide DoneIffRun;
      hide Answered;
      hide Noticed;
      hide Consumed;
    } else if a.Push? {
      PushKeepsInv(s, a.item);
    } else {
      hide Distinct;
      hide Batch;
    }
  }

  lemma ConsumeKeepsRest(s: State)
    requires Answered(s) && Noticed(s) && Enabled(s, Consume)
    ensures Answered(Consumed(s)) && Noticed(Consumed(s))
  {
  }

  lemma PushKeepsInv(s: State, i: Item)
    requires Inv(s) && i !in s.producers
    ensures Inv(Apply(s, Push(i)))
  {
    var t := Apply(s, Push(i));
    assert t.pushed == t.ran + Batch(t.consumer) + t.queue;
  }

  // ---------- Every interleaving ----------

  ghost predicate Possible(s: State, run: seq<Action>)
    decreases run
  {
    run == [] || (Enabled(s, run[0]) && Possible(Apply(s, run[0]), run[1..]))
  }

  ghost function After(s: State, run: seq<Action>): State
    requires Possible(s, run)
    decreases run
  {
    if run == [] then s else After(Apply(s, run[0]), run[1..])
  }

  lemma {:induction false} RunKeepsInv(s: State, run: seq<Action>)
    requires Inv(s) && Possible(s, run)
    ensures Inv(After(s, run))
    decreases run
  {
    if run != [] {
      StepKeepsInv(s, run[0]);
      RunKeepsInv(Apply(s, run[0]), run[1..]);
    }
  }

  /**
    In every interleaving: a request still in the queue has a producer that is
    about to write or whose write failed, or a wake-up is due or under way.
   */
  lemma NothingStranded(run: seq<Action>, i: Item)
    requires Possible(Start(), run)
    ensures var s := After(Start(), run);
            i in s.queue ==>
              && i in s.producers
              && (s.producers[i].Pushed? || s.producers[i].Unwoken? || Due(s))
  {
    RunKeepsInv(Start(), run);
    var s := After(Start(), run);
    if i in s.queue {
      StillThere(s, i);
    }
  }

  /** A pointer that is still held belongs to a producer that is still waiting for it. */
  lemma StillThere(s: State, i: Item)
    requires Inv(s) && i in Held(s)
    ensures i in s.producers && !s.producers[i].Returned? && i !in s.done
  {
    if s.consumer.Finishing? && s.consumer.item == i {
      assert i in s.ran;
      var k :| 0 <= k < |s.ran| && s.ran[k] == i;
      assert s.pushed[k] == i;
    } else {
      NotRunYet(s, i);
    }
  }

  /** No pointer in the queue or in the consumer's hands outlives its producer's wait. */
  lemma NoDanglingItem(run: seq<Action>, i: Item)
    requires Possible(Start(), run)
    ensures var s := After(Start(), run); i in Held(s) ==> i in s.producers && !s.producers[i].Returned?
  {
    RunKeepsInv(Start(), run);
    var s := After(Start(), run);
    if i in Held(s) {
      StillThere(s, i);
    }
  }

  /** A producer that got its answer had its request run, once, at its place in push order. */
  lemma RunOnceInOrder(run: seq<Action>)
    requires Possible(Start(), run)
    ensures var s := After(Start(), run);
            && s.ran <= s.pushed && Distinct(s.ran)
            && (forall i :: i in s.producers && s.producers[i].Returned? ==> i in s.ran)
  {
    RunKeepsInv(Start(), run);
    var s := After(Start(), run);
    assert s.pushed == s.ran + (Batch(s.consumer) + s.queue);
    assert forall k :: 0 <= k < |s.ran| ==> s.ran[k] == s.pushed[k];
  }

  // ---------- Progress ----------

  function Again(s: State): nat {
    if s.counter > 0 then 2 * |s.queue| + 6 else 0
  }

  /** How many steps the consumer still takes if it is left alone. */
  function Remaining(s: State): nat {
    match s.consumer
    case Asleep => Again(s)
    case Reading => 2 * |s.queue| + if s.counter > 0 then 5 else 4
    case ToDrain => 2 * |s.queue| + 3 + if s.counter > 0 then 6 else 0
    case Running(batch) => 2 * |batch| + 1 + Again(s)
    case Finishing(_, rest) => 2 * |rest| + 2 + Again(s)
  }

  function Settled(s: State): State
    decreases Remaining(s)
  {
    if Enabled(s, Consume) then Settled(Consumed(s)) else s
  }

  /** Left alone, the consumer comes to rest with every request answered whose write went through. */
  lemma {:induction false} EveryoneAnswered(s: State)
    requires Inv(s)
    ensures var t := Settled(s);
            && Inv(t) && t.consumer == Asleep && t.producers == s.producers
            && forall i :: i in s.producers && s.producers[i].Waiting? ==> i in t.done
    decreases Remaining(s)
  {
    if Enabled(s, Consume) {
      StepKeepsInv(s, Consume);
      EveryoneAnswered(Consumed(s));
    } else {
      forall i | i in s.producers && s.producers[i].Waiting? ensures i in s.done {
        assert i in s.pushed && i !in s.queue;
        assert s.pushed == s.ran + s.queue;
        assert i in s.ran;
      }
    }
  }

  /** What will have run once the consumer, left alone, is at rest: its batch, and the queue if a wake-up is due. */
  function WillHaveRun(s: State): seq<Item> {
    s.ran + Batch(s.consumer) + if Due(s) then s.queue else []
  }

  lemma OneStepCloser(s: State)
    requires Enabled(s, Consume)
    ensures WillHaveRun(Consumed(s)) == WillHaveRun(s)
    ensures Due(s) ==> Due(Consumed(s)) || Consumed(s).queue == []
    ensures !Due(s) ==> !Due(Consumed(s)) && Consumed(s).queue == s.queue
  {
    var t := Consumed(s);
    match s.consumer
    case Running(batch) =>
      if batch != [] {
        assert batch == [batch[0]] + batch[1..];
        assert s.ran + [batch[0]] + batch[1..] == s.ran + batch;
      }
    case ToDrain =>
      assert s.ran + [] + s.queue == s.ran + s.queue + [];
    case _ =>
  }

  /** Left alone, the consumer runs its batch, and the queue too exactly if a wake-up is due; then it sleeps. */
  lemma {:induction false} SettledRuns(s: State)
    ensures var t := Settled(s);
            && t.consumer == Asleep && t.counter == 0 && t.pushed == s.pushed && t.producers == s.producers
            && t.queue == (if Due(s) then [] else s.queue)
            && t.ran == WillHaveRun(s)
    decreases Remaining(s)
  {
    if Enabled(s, Consume) {
      OneStepCloser(s);
      hide WillHaveRun;
      SettledRuns(Consumed(s));
    }
  }

  /** Left alone, the consumer answers exactly the requests that are not queued, and the queued ones if a wake-up is due. */
  lemma SettledExactly(s: State, i: Item)
    requires Inv(s) && i in s.producers
    ensures i in Settled(s).done <==> i !in s.queue || Due(s)
  {
    EveryoneAnswered(s);
    SettledRuns(s);
    var t := Settled(s);
    assert t.pushed == t.ran + t.queue;
    if i in t.queue {
      StillThere(t, i);
    } else {
      assert i in t.ran;
    }
  }

  /** A failed write can leave a request in the queue with the consumer asleep: nobody is going to answer it. */
  lemma Stranded()
    ensures var run := [Push(0), WriteError(0)];
            Possible(Start(), run)
            && var s := After(Start(), run); 0 in s.queue && !Enabled(s, Consume) && 0 !in Settled(s).done
  {
    var run := [Push(0), WriteError(0)];
    var s1 := Apply(Start(), run[0]);
    assert run[1..] == [WriteError(0)] && run[1..][1..] == [];
    assert Possible(s1, run[1..]);
  }

  /** Without a wake-up due, a queued request stays unanswered until some producer's write goes through. */
  lemma {:induction false} OnlyAWriteHelps(s: State, run: seq<Action>, i: Item)
    requires Inv(s) && Possible(s, run) && i in s.queue && !Due(s)
    requires forall k :: 0 <= k < |run| ==> !run[k].Write?
    ensures i in After(s, run).queue && i !in After(s, run).done
    decreases run
  {
    if run == [] {
      StillThere(s, i);
    } else {
      StepKeepsInv(s, run[0]);
      OnlyAWriteHelps(Apply(s, run[0]), run[1..], i);
    }
  }

  // ---------- The queue and the callback ----------

  class GrpcDispatchQueue {
    var queue: seq<Item>
    var counter: nat
    /** What the epoll thread has run and answered, in order. */
    var ran: seq<Item>

    /** The fields agree with a state of the protocol. */
    ghost predicate Matches(s: State)
      reads this
    {
      queue == s.queue && counter == s.counter && ran == s.ran
    }

    constructor ()
      ensures Matches(Start())
      ensures queue == [] && counter == 0 && ran == []
    {
      queue, counter, ran := [], 0, [];
    }

    /** write(wake_fd_, 1), which fails when the counter is full or with another error. */
    method Wake(error: bool) returns (ok: bool)
      requires counter <= COUNTER_MAX
      modifies `counter
      ensures ok <==> old(counter) < 0xFFFF_FFFF_FFFF_FFFE && !error
      ensures counter <= COUNTER_MAX && counter == old(counter) + if ok then 1 else 0
    {
      ok := counter < COUNTER_MAX && !error;
      if ok {
        counter := counter + 1;
      }
    }

    /** `error` says whether the write fails for another reason than a full counter. */
    method Push(item: Item, error: bool)
      requires counter <= COUNTER_MAX
      modifies `queue, `counter
      ensures queue == old(queue) + [item] && counter <= COUNTER_MAX
      ensures if error then counter == old(counter) else counter > 0
      ensures forall s :: old(Matches(s)) && Enabled(s, Action.Push(item))
                ==> Matches(Apply(Apply(s, Action.Push(item)), if error then WriteError(item) else Write(item)))
    {
      queue := queue + [item];
      var _ := Wake(error);
    }

    method DrainAll() returns (drained: seq<Item>)
      modifies `queue
      ensures drained == old(queue) && queue == []
    {
      drained := queue;
      queue := [];
    }

    /** read(wake_fd_): the whole counter at once, or failure when it is zero. */
    method Read() returns (ok: bool)
      modifies `counter
      ensures ok <==> old(counter) > 0
      ensures counter == 0
    {
      ok := counter > 0;
      counter := 0;
    }

    /** DispatchGrpcRustQueueEvent, undisturbed: everything that was queued runs, in order. */
    method DispatchEvent()
      modifies this
      ensures queue == [] && counter == 0 && ran == old(ran) + old(queue)
      ensures forall s :: old(Matches(s)) && s.consumer.Asleep? && s.counter > 0 ==> Matches(Settled(s))
    {
      var ok := true;
      while ok
        invariant queue == old(queue) && ran == old(ran)
        invariant !ok ==> counter == 0
        decreases if ok then counter + 1 else 0
      {
        ok := Read();
      }
      var items := DrainAll();
      for k := 0 to |items|
        invariant queue == [] && counter == 0 && ran == old(ran) + items[..k]
      {
        ran := ran + [items[k]];
      }
      forall s | old(Matches(s)) && s.consumer.Asleep? && s.counter > 0 ensures Matches(Settled(s)) {
        SettledRuns(s);
      }
    }
  }
}
