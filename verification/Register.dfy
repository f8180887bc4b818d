/**
 The one-word register with its TXE and RXNE flags: step by step it is the
 bounded ring with room for one, so what holds there holds here.
 */
module Register {
  import opened Runs
  import R = Ring

  datatype State = State(dataReg: int, txe: bool, rxne: bool, running: bool, owner: R.Owner,
                         handler: R.Handler, producer: R.Thread, consumer: R.Thread, item: nat, consumed: seq<int>)

  predicate Init(s: State) {
    s == State(s.dataReg, true, false, true, R.Free, R.Quiet, R.Outside, R.Outside, 0, [])
  }

  function At(s: State, side: R.Side): R.Thread {
    if side.Producer? then s.producer else s.consumer
  }

  function Set(s: State, side: R.Side, t: R.Thread): State {
    if side.Producer? then s.(producer := t) else s.(consumer := t)
  }

  /** `!TXE` for the producer, `!RXNE` for the consumer. */
  predicate Blocked(s: State, side: R.Side) {
    if side.Producer? then !s.txe else !s.rxne
  }

  predicate Enabled(s: State, step: R.Step) {
    match step
    case Loop(side) => At(s, side).Outside?
    case Acquire(side) => (At(s, side).AtLock? || At(s, side).Woken?) && s.owner.Free?
    case Check(side) => At(s, side).Checking?
    case Sleep(side) => At(s, side).Resigned?
    case Signal(side) => At(s, side).Signalling?
    case Unlock(side) => At(s, side).Unlocking?
    case SpuriousWakeup(side) => At(s, side).Asleep?
    case Interrupt => s.handler.Quiet?
    case Broadcast(side) => s.handler == if side.Producer? then R.Flagged else R.Halfway
  }

  function After(s: State, step: R.Step): State
    requires Enabled(s, step)
  {
    match step
    case Loop(side) => Set(s, side, if s.running then R.AtLock else R.Done)
    case Acquire(side) => Set(s, side, R.Checking).(owner := R.By(side))
    case Check(side) =>
      if Blocked(s, side) && s.running then Set(s, side, R.Resigned)
      else if !s.running then Set(s, side, R.Done).(owner := R.Free)
      else if side.Producer? then s.(dataReg := s.item, txe := false, rxne := true, producer := R.Signalling)
      else s.(consumed := s.consumed + [s.dataReg], rxne := false, txe := true, consumer := R.Signalling)
    case Sleep(side) => Set(s, side, R.Asleep).(owner := R.Free)
    case Signal(side) => Set(Set(s, side, R.Unlocking), R.Other(side), R.Wake(At(s, R.Other(side))))
    case Unlock(side) => Set(s, side, R.Outside).(owner := R.Free, item := if side.Producer? then s.item + 1 else s.item)
    case SpuriousWakeup(side) => Set(s, side, R.Woken)
    case Interrupt => s.(running := false, handler := R.Flagged)
    case Broadcast(side) => Set(s, side, R.Wake(At(s, side))).(handler := if side.Producer? then R.Halfway else R.Quiet)
  }

  /** Exactly one of the two flags is set. */
  predicate Flags(s: State) {
    s.txe != s.rxne
  }

  /** The register as a ring with one place. */
  function AsRing(s: State): R.State {
    R.State([s.dataReg], 0, 0, if s.rxne then 1 else 0, s.running, s.owner, s.handler, s.producer, s.consumer, s.item, s.consumed)
  }

  lemma InitRefines(s: State)
    requires Init(s)
    ensures Flags(s) && R.Init(AsRing(s), 1)
  {}

  /** Each step of the register is that step of the ring, and keeps the flags complementary. */
  lemma StepRefines(s: State, step: R.Step)
    requires Flags(s) && Enabled(s, step)
    ensures R.Enabled(AsRing(s), step) && R.InRange(AsRing(s))
    ensures AsRing(After(s, step)) == R.After(AsRing(s), step)
    ensures Flags(After(s, step))
  {
    var r := AsRing(s);
    assert r.buffer[0 := s.item] == [s.item];
    R.Around(1, 1);
  }

  predicate Next(s: State, step: R.Step, t: State) {
    Enabled(s, step) && t == After(s, step)
  }

  function AsRings(states: seq<State>): (r: seq<R.State>)
    ensures |r| == |states| && forall i :: 0 <= i < |states| ==> r[i] == AsRing(states[i])
  {
    seq(|states|, i requires 0 <= i < |states| => AsRing(states[i]))
  }

  lemma FlagsKept(states: seq<State>, steps: seq<R.Step>, k: nat)
    requires Run(states, steps, Next) && Init(states[0]) && k < |states|
    ensures Flags(states[k])
  {
    hide After, Enabled, Flags;
    InitRefines(states[0]);
    forall s, step, t | Flags(s) && Next(s, step, t) ensures Flags(t) {
      StepRefines(s, step);
    }
    Keeps(states, steps, Next, Flags, 0, k);
  }

  /** Each run of the register is a run of the ring. */
  lemma RunRefines(states: seq<State>, steps: seq<R.Step>)
    requires Run(states, steps, Next) && Init(states[0])
    ensures Run(AsRings(states), steps, R.Next) && R.Init(AsRings(states)[0], 1)
  {
    hide After, Enabled, Flags, R.After, R.Enabled, R.InRange, AsRing;
    InitRefines(states[0]);
    var rings := AsRings(states);
    forall i | 0 <= i < |steps| ensures R.Next(rings[i], steps[i], rings[i + 1]) {
      FlagsKept(states, steps, i);
      assert Next(states[i], steps[i], states[i + 1]);
      StepRefines(states[i], steps[i]);
    }
  }

  /** In every state of every run one flag is up, the values arrive as 0, 1, 2, ..., at most one behind, and the two are not both asleep. */
  lemma HandsOverInOrder(states: seq<State>, steps: seq<R.Step>, k: nat)
    requires Run(states, steps, Next) && Init(states[0]) && k < |states|
    ensures var s := states[k];
            && (if s.txe then 1 else 0) + (if s.rxne then 1 else 0) == 1
            && s.consumed == seq(|s.consumed|, i => i)
            && (s.rxne <==> R.Produced(AsRing(s)) == |s.consumed| + 1)
            && (s.txe <==> R.Produced(AsRing(s)) == |s.consumed|)
            && (s.rxne ==> s.dataReg == |s.consumed|)
            && !(s.producer.Asleep? && s.consumer.Asleep?)
  {
    FlagsKept(states, steps, k);
    RunRefines(states, steps);
    R.RunKeeps(AsRings(states), steps, 1, k);
    var r := AsRing(states[k]);
    if states[k].rxne {
      assert r.buffer[R.Slot(r.head, |r.buffer|, 0)] == |r.consumed|;
    }
  }

  /** What the handler leaves decides here, too, whether the threads stop. */
  lemma {:induction false} StopsExactly(states: seq<State>, steps: seq<R.Step>, from: nat)
    requires Run(states, steps, Next) && Init(states[0])
    requires from < |states| && R.Stopping(AsRing(states[from])) && forall i :: from <= i < |steps| ==> R.OfThread(steps[i])
    requires forall step :: Enabled(states[|steps|], step) ==> !R.OfThread(step)
    ensures var s := states[|steps|];
            s.producer.Done? && s.consumer.Done? <==> R.Stops(AsRing(states[from]))
  {
    hide R.Stops, R.Stopping, R.OfThread, After, R.After;
    RunRefines(states, steps);
    R.StopsExactly(AsRings(states), steps, 1, from);
  }
}
