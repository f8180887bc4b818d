/**
 The bounded ring between a producer and a consumer thread: one mutex, a
 condition variable for each, spurious wakeups, and a signal handler that stops
 both without the mutex.
 */
module Ring {
  import opened Runs

  /** `Checking` to `Unlocking` hold the mutex; `Resigned` has found that it must wait, `Done` the loop left. */
  datatype Thread = Outside | AtLock | Checking | Resigned | Asleep | Woken | Signalling | Unlocking | Done

  datatype Side = Producer | Consumer

  datatype Owner = Free | By(side: Side)

  /** `Flagged` has cleared the flag, `Halfway` has woken the producer, too. */
  datatype Handler = Quiet | Flagged | Halfway

  /** `item` is the producer's local counter, `consumed` what the consumer has read so far. */
  datatype State = State(buffer: seq<int>, head: nat, tail: nat, count: nat, running: bool, owner: Owner,
                         handler: Handler, producer: Thread, consumer: Thread, item: nat, consumed: seq<int>)

  datatype Step = Loop(side: Side) | Acquire(side: Side) | Check(side: Side) | Sleep(side: Side)
                | Signal(side: Side) | Unlock(side: Side) | SpuriousWakeup(side: Side)
                | Interrupt | Broadcast(side: Side)

  function Other(side: Side): Side {
    if side.Producer? then Consumer else Producer
  }

  function At(s: State, side: Side): Thread {
    if side.Producer? then s.producer else s.consumer
  }

  function Set(s: State, side: Side, t: Thread): State {
    if side.Producer? then s.(producer := t) else s.(consumer := t)
  }

  function Wake(t: Thread): Thread {
    if t.Asleep? then Woken else t
  }

  predicate Init(s: State, capacity: nat) {
    && capacity >= 1 && |s.buffer| == capacity
    && s == State(s.buffer, 0, 0, 0, true, Free, Quiet, Outside, Outside, 0, [])
  }

  /** The test that makes a side wait. */
  predicate Blocked(s: State, side: Side) {
    s.count == if side.Producer? then |s.buffer| else 0
  }

  predicate Enabled(s: State, step: Step) {
    match step
    case Loop(side) => At(s, side).Outside?
    case Acquire(side) => (At(s, side).AtLock? || At(s, side).Woken?) && s.owner.Free?
    case Check(side) => At(s, side).Checking?
    case Sleep(side) => At(s, side).Resigned?
    case Signal(side) => At(s, side).Signalling?
    case Unlock(side) => At(s, side).Unlocking?
    case SpuriousWakeup(side) => At(s, side).Asleep?
    case Interrupt => s.handler.Quiet?
    case Broadcast(side) => s.handler == if side.Producer? then Flagged else Halfway
  }

  predicate InRange(s: State) {
    s.head < |s.buffer| && s.tail < |s.buffer|
  }

  /** What the producer does when there is room. */
  function Produce(s: State): State
    requires InRange(s)
  {
    s.(buffer := s.buffer[s.tail := s.item], tail := (s.tail + 1) % |s.buffer|, count := s.count + 1, producer := Signalling)
  }

  /** What the consumer does when there is something. */
  function Consume(s: State): State
    requires InRange(s) && s.count > 0
  {
    s.(consumed := s.consumed + [s.buffer[s.head]], head := (s.head + 1) % |s.buffer|, count := s.count - 1,
       consumer := Signalling)
  }

  function After(s: State, step: Step): State
    requires InRange(s) && Enabled(s, step)
  {
    match step
    case Loop(side) => Set(s, side, if s.running then AtLock else Done)
    case Acquire(side) => Set(s, side, Checking).(owner := By(side))
    case Check(side) =>
      if Blocked(s, side) && s.running then Set(s, side, Resigned)
      else if !s.running then Set(s, side, Done).(owner := Free)
      else if side.Producer? then Produce(s) else Consume(s)
    case Sleep(side) => Set(s, side, Asleep).(owner := Free)
    case Signal(side) => Set(Set(s, side, Unlocking), Other(side), Wake(At(s, Other(side))))
    case Unlock(side) => Set(s, side, Outside).(owner := Free, item := if side.Producer? then s.item + 1 else s.item)
    case SpuriousWakeup(side) => Set(s, side, Woken)
    case Interrupt => s.(running := false, handler := Flagged)
    case Broadcast(side) => Set(s, side, Wake(At(s, side))).(handler := if side.Producer? then Halfway else Quiet)
  }

  /** A sleeper may wake up without a reason, and the signal may come at any time. */
  lemma AnytimeSteps(s: State)
    requires InRange(s)
    ensures s.producer == Asleep ==> Enabled(s, SpuriousWakeup(Producer)) && After(s, SpuriousWakeup(Producer)) == s.(producer := Woken)
    ensures s.consumer == Asleep ==> Enabled(s, SpuriousWakeup(Consumer)) && After(s, SpuriousWakeup(Consumer)) == s.(consumer := Woken)
    ensures s.handler == Quiet ==> Enabled(s, Interrupt) && After(s, Interrupt) == s.(running := false, handler := Flagged)
  {}

  // ---- what every step keeps

  predicate HasMutex(t: Thread) {
    t.Checking? || t.Resigned? || t.Signalling? || t.Unlocking?
  }

  predicate Mutex(s: State) {
    && (HasMutex(s.producer) <==> s.owner == By(Producer))
    && (HasMutex(s.consumer) <==> s.owner == By(Consumer))
  }

  /** How many items the producer has put in. */
  function Produced(s: State): nat {
    s.item + if s.producer.Signalling? || s.producer.Unlocking? then 1 else 0
  }

  /** The position in the buffer of the `k`-th item that is in it. */
  function Slot(head: nat, n: nat, k: nat): nat
    requires n > 0
  {
    (head + k) % n
  }

  /** The consumed values are 0, 1, 2, ..., and the buffer holds the next ones up to what was produced. */
  predicate InOrder(s: State) {
    && |s.buffer| > 0 && s.head < |s.buffer| && s.count <= |s.buffer|
    && s.tail == Slot(s.head, |s.buffer|, s.count)
    && |s.consumed| + s.count == Produced(s)
    && (forall k :: 0 <= k < |s.consumed| ==> s.consumed[k] == k)
    && forall k :: 0 <= k < s.count ==> s.buffer[Slot(s.head, |s.buffer|, k)] == |s.consumed| + k
  }

  predicate Waiting(t: Thread) {
    t.Resigned? || t.Asleep?
  }

  /** Who waits has a reason, unless the other is about to signal. */
  predicate Reasons(s: State) {
    && (Waiting(s.producer) ==> s.count == |s.buffer| || s.consumer.Signalling?)
    && (Waiting(s.consumer) ==> s.count == 0 || s.producer.Signalling?)
  }

  predicate Inv(s: State) {
    Mutex(s) && InOrder(s) && Reasons(s)
  }

  lemma InitKeeps(s: State, capacity: nat)
    requires Init(s, capacity)
    ensures Inv(s)
  {}

  lemma Around(i: nat, n: nat)
    requires n > 0 && i < 2 * n
    ensures i % n == if i < n then i else i - n
  {}

  /** Distinct items lie in distinct places. */
  lemma SlotsDiffer(s: State, j: nat, k: nat)
    requires |s.buffer| > 0 && s.head < |s.buffer| && j < k < |s.buffer|
    ensures Slot(s.head, |s.buffer|, j) != Slot(s.head, |s.buffer|, k)
  {
    Around(s.head + j, |s.buffer|);
    Around(s.head + k, |s.buffer|);
  }

  lemma ProduceInOrder(s: State)
    requires InOrder(s) && s.producer.Checking? && s.count < |s.buffer|
    ensures InOrder(Produce(s))
  {
    var t, n := Produce(s), |s.buffer|;
    Around(s.head + s.count, n);
    Around(s.head + s.count + 1, n);
    Around(s.tail + 1, n);
    forall k | 0 <= k < t.count ensures t.buffer[Slot(t.head, |t.buffer|, k)] == |t.consumed| + k {
      if k < s.count {
        SlotsDiffer(s, k, s.count);
        assert s.buffer[Slot(s.head, |s.buffer|, k)] == |s.consumed| + k;
      }
    }
  }

  lemma ConsumeInOrder(s: State)
    requires InOrder(s) && s.count > 0
    ensures InOrder(Consume(s))
  {
    var t, n := Consume(s), |s.buffer|;
    Around(s.head, n);
    Around(s.head + 1, n);
    assert s.buffer[Slot(s.head, |s.buffer|, 0)] == |s.consumed|;
    forall k | 0 <= k <= t.count ensures Slot(t.head, |t.buffer|, k) == Slot(s.head, |s.buffer|, k + 1) {
      Around(s.head + k + 1, n);
      Around(t.head + k, n);
    }
    forall k | 0 <= k < t.count ensures t.buffer[Slot(t.head, |t.buffer|, k)] == |t.consumed| + k {
      assert s.buffer[Slot(s.head, |s.buffer|, k + 1)] == |s.consumed| + (k + 1);
    }
  }

  lemma StepInOrder(s: State, step: Step)
    requires Inv(s) && InRange(s) && Enabled(s, step)
    ensures InOrder(After(s, step))
  {
    hide Slot;
    if step.Check? && s.running && !Blocked(s, step.side) {
      if step.side.Producer? { ProduceInOrder(s); } else { ConsumeInOrder(s); }
    }
  }

  lemma StepMutex(s: State, step: Step)
    requires Mutex(s) && InRange(s) && Enabled(s, step)
    ensures Mutex(After(s, step))
  {}

  lemma StepReasons(s: State, step: Step)
    requires Inv(s) && InRange(s) && Enabled(s, step)
    ensures Reasons(After(s, step))
  {
    hide Slot, InOrder;
  }

  lemma SizeStays(s: State, step: Step)
    requires InRange(s) && Enabled(s, step)
    ensures |After(s, step).buffer| == |s.buffer|
  {}

  /** Every step keeps the invariant; in particular the indices stay in range. */
  lemma StepKeeps(s: State, step: Step)
    requires Inv(s) && Enabled(s, step)
    ensures InRange(s) && Inv(After(s, step)) && |After(s, step).buffer| == |s.buffer|
  {
    SlotInRange(s);
    SizeStays(s, step);
    hide After, Mutex, InOrder, Reasons;
    StepMutex(s, step);
    StepInOrder(s, step);
    StepReasons(s, step);
  }

  lemma SlotInRange(s: State)
    requires InOrder(s)
    ensures InRange(s)
  {
    Around(s.head + s.count, |s.buffer|);
  }

  // ---- what follows in every state of every run

  predicate Next(s: State, step: Step, t: State) {
    InRange(s) && Enabled(s, step) && t == After(s, step)
  }

  lemma RunKeeps(states: seq<State>, steps: seq<Step>, capacity: nat, k: nat)
    requires Run(states, steps, Next) && Init(states[0], capacity) && k < |states|
    ensures Inv(states[k]) && |states[k].buffer| == capacity
  {
    hide Inv, After, Enabled, InRange;
    InitKeeps(states[0], capacity);
    var inv := (s: State) => Inv(s) && |s.buffer| == capacity;
    forall s, step, t | inv(s) && Next(s, step, t) ensures inv(t) {
      StepKeeps(s, step);
    }
    Keeps(states, steps, Next, inv, 0, k);
  }

  /** The consumer reads 0, 1, 2, ... and is behind by what is in the ring. */
  lemma HandsOverInOrder(states: seq<State>, steps: seq<Step>, capacity: nat, k: nat)
    requires Run(states, steps, Next) && Init(states[0], capacity) && k < |states|
    ensures var s := states[k];
            && s.consumed == seq(|s.consumed|, i => i)
            && |s.consumed| <= Produced(s) <= |s.consumed| + capacity
            && s.tail == (s.head + s.count) % capacity
  {
    RunKeeps(states, steps, capacity, k);
  }

  /** Producer and consumer are never both asleep, not even once they are told to stop. */
  lemma NeverBothAsleep(states: seq<State>, steps: seq<Step>, capacity: nat, k: nat)
    requires Run(states, steps, Next) && Init(states[0], capacity) && k < |states|
    ensures !(states[k].producer.Asleep? && states[k].consumer.Asleep?)
  {
    RunKeeps(states, steps, capacity, k);
  }

  /** A step that one of the threads takes of itself. */
  predicate OfThread(step: Step) {
    !step.SpuriousWakeup? && !step.Interrupt? && !step.Broadcast?
  }

  /** A thread that is neither asleep nor done can move, or the other one can, which has the mutex. */
  lemma CanMove(s: State, side: Side) returns (step: Step)
    requires Inv(s) && !At(s, side).Asleep? && !At(s, side).Done?
    ensures Enabled(s, step) && OfThread(step)
  {
    var mover := if s.owner.By? then s.owner.side else side;
    var t := At(s, mover);
    step := if t.Outside? then Loop(mover) else if t.AtLock? || t.Woken? then Acquire(mover)
            else if t.Checking? then Check(mover) else if t.Resigned? then Sleep(mover)
            else if t.Signalling? then Signal(mover) else Unlock(mover);
  }

  /** While they run, one of the two can always move, without a spurious wakeup. */
  lemma NoDeadlock(s: State) returns (step: Step)
    requires Inv(s) && s.running && !s.producer.Done? && !s.consumer.Done?
    ensures Enabled(s, step) && OfThread(step)
  {
    step := CanMove(s, if s.producer.Asleep? then Consumer else Producer);
  }

  // ---- stopping

  /** The handler has returned. */
  predicate Stopping(s: State) {
    !s.running && s.handler.Quiet?
  }

  /** Nobody is past the test and about to sleep, and who sleeps is about to be signalled. */
  predicate Stops(s: State) {
    && !s.producer.Resigned? && (s.producer.Asleep? ==> s.consumer.Signalling?)
    && !s.consumer.Resigned? && (s.consumer.Asleep? ==> s.producer.Signalling?)
  }

  predicate BothDone(s: State) {
    s.producer.Done? && s.consumer.Done?
  }

  function Rank(t: Thread): nat {
    match t
    case Done => 0
    case Outside | Checking => 1
    case AtLock | Woken | Unlocking => 2
    case Signalling | Asleep => 3
    case Resigned => 4
  }

  /** How many steps are left at most, once the flag is cleared. */
  function Measure(s: State): nat {
    Rank(s.producer) + Rank(s.consumer) + (if s.handler.Flagged? then 2 else if s.handler.Halfway? then 1 else 0)
  }

  /** Once the flag is cleared, every step but another signal brings the end closer, spurious wakeups, too. */
  lemma StopBounded(s: State, step: Step)
    requires Inv(s) && !s.running && Enabled(s, step) && !step.Interrupt?
    ensures InRange(s) && Measure(After(s, step)) < Measure(s) && !After(s, step).running
  {
    hide InOrder, Reasons;
    SlotInRange(s);
  }

  /** No step of a thread changes whether the two are going to stop. */
  lemma StopsKept(s: State, step: Step)
    requires Inv(s) && Stopping(s) && Enabled(s, step) && OfThread(step)
    ensures InRange(s) && Stopping(After(s, step)) && (Stops(After(s, step)) <==> Stops(s))
  {
    hide InOrder, Reasons;
    SlotInRange(s);
  }

  /** Where no thread can move by itself, both have stopped, or one of them sleeps for good. */
  lemma AtTheEnd(s: State)
    requires Inv(s) && Stopping(s) && forall step :: Enabled(s, step) ==> !OfThread(step)
    ensures BothDone(s) <==> Stops(s)
  {
    hide InOrder, Reasons;
    forall side ensures At(s, side).Done? || At(s, side).Asleep? {
      if !At(s, side).Done? && !At(s, side).Asleep? {
        var step := CanMove(s, side);
        assert false;
      }
    }
    assert At(s, Producer) == s.producer && At(s, Consumer) == s.consumer;
  }

  /** From the handler's return on, without further signals and spurious wakeups, every run ends with both threads done or none does, and `Stops` tells which. */
  lemma StopsExactly(states: seq<State>, steps: seq<Step>, capacity: nat, from: nat)
    requires Run(states, steps, Next) && Init(states[0], capacity)
    requires from < |states| && Stopping(states[from]) && forall i :: from <= i < |steps| ==> OfThread(steps[i])
    requires forall step :: Enabled(states[|steps|], step) ==> !OfThread(step)
    ensures BothDone(states[|steps|]) <==> Stops(states[from])
  {
    hide Inv, After, Enabled, InRange, Stops, OfThread, BothDone;
    StopsAlong(states, steps, capacity, from, |steps|);
    RunKeeps(states, steps, capacity, |steps|);
    AtTheEnd(states[|steps|]);
  }

  lemma {:induction false} StopsAlong(states: seq<State>, steps: seq<Step>, capacity: nat, from: nat, k: nat)
    requires Run(states, steps, Next) && Init(states[0], capacity)
    requires from <= k < |states| && Stopping(states[from]) && forall i :: from <= i < |steps| ==> OfThread(steps[i])
    ensures Stopping(states[k]) && (Stops(states[k]) <==> Stops(states[from]))
    decreases k
  {
    hide Inv, After, Enabled, InRange, Stops, OfThread;
    if k > from {
      StopsAlong(states, steps, capacity, from, k - 1);
      RunKeeps(states, steps, capacity, k - 1);
      assert Next(states[k - 1], steps[k - 1], states[k]);
      StopsKept(states[k - 1], steps[k - 1]);
    }
  }

  /** A run on which the signal comes between the consumer's test and its sleep. */
  lemma LostWakeup(s: State, capacity: nat) returns (states: seq<State>, steps: seq<Step>)
    requires Init(s, capacity)
    ensures Run(states, steps, Next) && states[0] == s
    ensures Stopping(states[|steps|]) && !Stops(states[|steps|])
  {
    var looped := s.(consumer := AtLock);
    var acquired := s.(consumer := Checking, owner := By(Consumer));
    var resigned := acquired.(consumer := Resigned);
    var flagged := resigned.(running := false, handler := Flagged);
    states := [s, looped, acquired, resigned, flagged, flagged.(handler := Halfway), flagged.(handler := Quiet)];
    steps := [Loop(Consumer), Acquire(Consumer), Check(Consumer), Interrupt, Broadcast(Producer), Broadcast(Consumer)];
  }

  // ---- the ring in its array

  /** What is in the ring, oldest first. */
  function Window(b: seq<int>, head: nat, count: nat): (r: seq<int>)
    requires |b| > 0
    ensures |r| == count
  {
    seq(count, k requires 0 <= k < count => b[Slot(head, |b|, k)])
  }

  lemma PutWindow(b: seq<int>, head: nat, count: nat, item: int)
    requires head < |b| && count < |b|
    ensures Window(b[Slot(head, |b|, count) := item], head, count + 1) == Window(b, head, count) + [item]
    ensures (Slot(head, |b|, count) + 1) % |b| == Slot(head, |b|, count + 1)
  {
    var n := |b|;
    Around(head + count, n);
    Around(head + count + 1, n);
    Around(Slot(head, n, count) + 1, n);
    forall k | 0 <= k < count ensures Slot(head, n, k) != Slot(head, n, count) {
      Around(head + k, n);
    }
  }

  lemma GetWindow(b: seq<int>, head: nat, count: nat)
    requires head < |b| && 0 < count <= |b|
    ensures [b[head]] + Window(b, (head + 1) % |b|, count - 1) == Window(b, head, count)
    ensures Slot((head + 1) % |b|, |b|, count - 1) == Slot(head, |b|, count)
  {
    var n, h := |b|, (head + 1) % |b|;
    Around(head, n);
    Around(head + 1, n);
    forall k | 0 <= k < count ensures Slot(h, n, k) == Slot(head, n, k + 1) {
      Around(head + k + 1, n);
      Around(h + k, n);
    }
  }

  /** `queue_buffer`, `queue_head`, `queue_tail` and `queue_count`. */
  class RingQueue {
    const buffer: array<int>
    var head: nat
    var tail: nat
    var count: nat

    ghost predicate Valid()
      reads this
    {
      && buffer.Length > 0 && head < buffer.Length && count <= buffer.Length
      && tail == Slot(head, buffer.Length, count)
    }

    ghost function Contents(): seq<int>
      requires Valid()
      reads this, buffer
    {
      Window(buffer[..], head, count)
    }

    constructor (capacity: nat)
      requires capacity > 0
      ensures Valid() && Contents() == [] && buffer.Length == capacity && fresh(buffer)
    {
      buffer := new int[capacity];
      head, tail, count := 0, 0, 0;
    }

    /** The producer's update, made when the ring is not full. */
    method Put(item: int)
      requires Valid() && count < buffer.Length
      modifies this, buffer
      ensures Valid() && Contents() == old(Contents()) + [item]
      ensures buffer[..] == old(buffer[..])[old(tail) := item] && head == old(head)
      ensures tail == (old(tail) + 1) % buffer.Length && count == old(count) + 1
    {
      hide Window, Slot;
      PutWindow(buffer[..], head, count, item);
      SlotIn(head, buffer.Length, count);
      buffer[tail] := item;
      assert buffer[..] == old(buffer[..])[tail := item];
      tail := (tail + 1) % buffer.Length;
      count := count + 1;
    }

    /** The consumer's update, made when the ring is not empty. */
    method Get() returns (item: int)
      requires Valid() && count > 0
      modifies this
      ensures Valid() && [item] + Contents() == old(Contents())
      ensures item == buffer[old(head)] && tail == old(tail)
      ensures head == (old(head) + 1) % buffer.Length && count == old(count) - 1
    {
      hide Window, Slot;
      GetWindow(buffer[..], head, count);
      item := buffer[head];
      head := (head + 1) % buffer.Length;
      count := count - 1;
    }

    /** The ring of a state of the two threads. */
    ghost predicate Is(s: State)
      reads this, buffer
    {
      Valid() && buffer[..] == s.buffer && head == s.head && tail == s.tail && count == s.count
    }

    /** The producer's test and update are the step `Check`; `next` is where it then is. */
    method ProducerCheck(item: nat, running: bool, ghost s: State) returns (next: Thread)
      requires Is(s) && Enabled(s, Check(Producer)) && item == s.item && running == s.running
      modifies this, buffer
      ensures Is(After(s, Check(Producer))) && next == After(s, Check(Producer)).producer
    {
      if count == buffer.Length && running {
        return Resigned;
      }
      if !running {
        return Done;
      }
      Put(item);
      return Signalling;
    }

    /** The consumer's test and update are the step `Check`; `items` is what it has read. */
    method ConsumerCheck(running: bool, ghost s: State) returns (next: Thread, items: seq<int>)
      requires Is(s) && Enabled(s, Check(Consumer)) && running == s.running
      modifies this
      ensures var t := After(s, Check(Consumer));
              Is(t) && next == t.consumer && s.consumed + items == t.consumed
    {
      items := [];
      if count == 0 && running {
        return Resigned, items;
      }
      if !running {
        return Done, items;
      }
      var item := Get();
      return Signalling, [item];
    }
  }

  lemma SlotIn(head: nat, n: nat, k: nat)
    requires n > 0
    ensures Slot(head, n, k) < n
  {}
}
