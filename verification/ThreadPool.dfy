/**
 The thread pool as steps of its threads: any number of workers, a main thread
 that submits tasks and then shuts down, one mutex, one condition variable
 with spurious wakeups.
 */
module ThreadPool {
  import opened Runs

  const QUEUE_SIZE: nat := 256

  type Task = nat

  /** Where `startThread` is. `Checking` holds the mutex, at the tests after the lock or a wait. */
  datatype Worker = AtLock | Checking | Sleeping | Woken | Executing(task: Task) | Exited

  /** Where the main thread is, with the tasks not yet submitted. `Outside`, `Joining` do not hold the mutex. */
  datatype Main =
    | Outside(todo: seq<Task>)
    | Submitting(todo: seq<Task>)
    | Signalling(todo: seq<Task>)
    | Leaving(todo: seq<Task>)
    | Stopping
    | Broadcasting
    | Unlocking
    | Joining

  datatype Owner = Free | ByMain | ByWorker(i: nat)

  /** `accepted` and `taken` record the order of entry and removal, `done` what has been executed. */
  datatype State = State(workers: seq<Worker>, main: Main, owner: Owner, queue: seq<Task>, shutdown: bool,
                         accepted: seq<Task>, taken: seq<Task>, done: multiset<Task>)

  datatype Step =
    | MainLock | Submit | Signal(i: nat) | MainUnlock | SetShutdown | Broadcast
    | Acquire(i: nat) | Check(i: nat) | Finish(i: nat) | SpuriousWakeup(i: nat)

  predicate Init(s: State, workers: nat, tasks: seq<Task>) {
    && workers > 0
    && s == State(seq(workers, i => AtLock), Outside(tasks), Free, [], false, [], [], multiset{})
  }

  function SetWorker(s: State, i: nat, w: Worker): State
    requires i < |s.workers|
  {
    s.(workers := s.workers[i := w])
  }

  function WakeAll(ws: seq<Worker>): (r: seq<Worker>)
    ensures |r| == |ws| && forall i :: 0 <= i < |ws| ==> r[i] == if ws[i].Sleeping? then Woken else ws[i]
  {
    seq(|ws|, i requires 0 <= i < |ws| => if ws[i].Sleeping? then Woken else ws[i])
  }

  predicate SomeSleeping(s: State) {
    exists i :: 0 <= i < |s.workers| && s.workers[i].Sleeping?
  }

  predicate Enabled(s: State, step: Step) {
    match step
    case MainLock => s.main.Outside? && s.owner.Free?
    case Submit => s.main.Submitting?
    case Signal(i) => s.main.Signalling? && (SomeSleeping(s) ==> i < |s.workers| && s.workers[i].Sleeping?)
    case MainUnlock => s.main.Leaving? || s.main.Unlocking?
    case SetShutdown => s.main.Stopping?
    case Broadcast => s.main.Broadcasting?
    case Acquire(i) => i < |s.workers| && (s.workers[i].AtLock? || s.workers[i].Woken?) && s.owner.Free?
    case Check(i) => i < |s.workers| && s.workers[i].Checking?
    case Finish(i) => i < |s.workers| && s.workers[i].Executing?
    case SpuriousWakeup(i) => i < |s.workers| && s.workers[i].Sleeping?
  }

  /** The state after a step that is enabled. */
  function After(s: State, step: Step): State
    requires Enabled(s, step)
  {
    match step
    case MainLock => s.(owner := ByMain, main := if s.main.todo == [] then Stopping else Submitting(s.main.todo))
    case Submit =>
      if s.main.todo == [] then s
      else if |s.queue| < QUEUE_SIZE then
        s.(queue := s.queue + [s.main.todo[0]], accepted := s.accepted + [s.main.todo[0]], main := Signalling(s.main.todo[1..]))
      else
        s.(main := Leaving(s.main.todo[1..]))
    case Signal(i) =>
      var t := if SomeSleeping(s) then SetWorker(s, i, Woken) else s;
      t.(main := Leaving(s.main.todo))
    case MainUnlock => s.(owner := Free, main := if s.main.Leaving? then Outside(s.main.todo) else Joining)
    case SetShutdown => s.(shutdown := true, main := Broadcasting)
    case Broadcast => s.(workers := WakeAll(s.workers), main := Unlocking)
    case Acquire(i) => SetWorker(s, i, Checking).(owner := ByWorker(i))
    case Check(i) =>
      var t := s.(owner := Free);
      if s.queue == [] && !s.shutdown then SetWorker(t, i, Sleeping)
      else if s.queue == [] then SetWorker(t, i, Exited)
      else SetWorker(t, i, Executing(s.queue[0])).(queue := s.queue[1..], taken := s.taken + [s.queue[0]])
    case Finish(i) => SetWorker(s, i, AtLock).(done := s.done + multiset{s.workers[i].task})
    case SpuriousWakeup(i) => SetWorker(s, i, Woken)
  }

  /** Any sleeper may wake up without a reason, and any may be the one that a signal wakes. */
  lemma AnySleeperWakes(s: State, i: nat)
    requires i < |s.workers| && s.workers[i] == Sleeping
    ensures Enabled(s, SpuriousWakeup(i)) && After(s, SpuriousWakeup(i)) == s.(workers := s.workers[i := Woken])
    ensures s.main.Signalling? ==>
              Enabled(s, Signal(i)) && After(s, Signal(i)) == s.(workers := s.workers[i := Woken], main := Leaving(s.main.todo))
  {}

  // ---- what every step keeps

  function Running(ws: seq<Worker>): multiset<Task> {
    if ws == [] then multiset{}
    else Running(ws[..|ws| - 1]) + RunningOn(ws[|ws| - 1])
  }

  function RunningOn(w: Worker): multiset<Task> {
    if w.Executing? then multiset{w.task} else multiset{}
  }

  lemma SumSwap<T>(a: multiset<T>, b: multiset<T>, c: multiset<T>, d: multiset<T>, more: multiset<T>)
    requires a + b == c + d
    ensures a + more + b == c + more + d
  {
    assert a + more + b == a + b + more;
    assert c + more + d == c + d + more;
  }

  lemma {:induction false} RunningUpdate(ws: seq<Worker>, i: nat, w: Worker)
    requires i < |ws|
    ensures Running(ws[i := w]) + RunningOn(ws[i]) == Running(ws) + RunningOn(w)
    decreases |ws|
  {
    hide RunningOn;
    var n, v := |ws| - 1, ws[i := w];
    if i < n {
      assert v[..n] == ws[..n][i := w];
      RunningUpdate(ws[..n], i, w);
      SumSwap(Running(v[..n]), RunningOn(ws[i]), Running(ws[..n]), RunningOn(w), RunningOn(ws[n]));
    } else {
      assert v[..n] == ws[..n];
      assert Running(ws[..n]) + RunningOn(w) + RunningOn(ws[n]) == Running(ws[..n]) + RunningOn(ws[n]) + RunningOn(w);
    }
  }

  /** A worker that neither had a task nor gets one. */
  lemma RunningSame(ws: seq<Worker>, i: nat, w: Worker)
    requires i < |ws| && !ws[i].Executing? && !w.Executing?
    ensures Running(ws[i := w]) == Running(ws)
  {
    hide Running;
    RunningUpdate(ws, i, w);
    assert Running(ws) + multiset{} == Running(ws);
    assert Running(ws[i := w]) + multiset{} == Running(ws[i := w]);
  }

  lemma {:induction false} RunningWoken(ws: seq<Worker>)
    ensures Running(WakeAll(ws)) == Running(ws)
    decreases |ws|
  {
    if ws != [] {
      var n := |ws| - 1;
      assert WakeAll(ws)[..n] == WakeAll(ws[..n]);
      RunningWoken(ws[..n]);
    }
  }

  lemma {:induction false} NoneRunning(ws: seq<Worker>)
    requires forall i :: 0 <= i < |ws| ==> !ws[i].Executing?
    ensures Running(ws) == multiset{}
    decreases |ws|
  {
    if ws != [] { NoneRunning(ws[..|ws| - 1]); }
  }

  predicate Awake(w: Worker) {
    !w.Sleeping? && !w.Exited?
  }

  predicate SomeAwake(s: State) {
    exists i :: 0 <= i < |s.workers| && Awake(s.workers[i])
  }

  predicate MainHolds(m: Main) {
    m.Submitting? || m.Signalling? || m.Leaving? || m.Stopping? || m.Broadcasting? || m.Unlocking?
  }

  /** The mutex is held by whoever is in a critical section, and by no one else. */
  predicate Mutex(s: State) {
    && (s.owner.ByMain? <==> MainHolds(s.main))
    && (forall i :: 0 <= i < |s.workers| ==> (s.workers[i].Checking? <==> s.owner == ByWorker(i)))
    && (s.owner.ByWorker? ==> s.owner.i < |s.workers|)
  }

  /** First in, first out, nothing lost, nothing run twice. */
  predicate Conserved(s: State) {
    && s.taken + s.queue == s.accepted
    && |s.queue| <= QUEUE_SIZE
    && s.done + Running(s.workers) == multiset(s.taken)
  }

  /** On the way to the queue. */
  function ReadyOn(w: Worker): nat {
    if w.AtLock? || w.Checking? || w.Woken? then 1 else 0
  }

  function Ready(ws: seq<Worker>): nat {
    if ws == [] then 0 else Ready(ws[..|ws| - 1]) + ReadyOn(ws[|ws| - 1])
  }

  lemma {:induction false} ReadyUpdate(ws: seq<Worker>, i: nat, w: Worker)
    requires i < |ws|
    ensures Ready(ws[i := w]) == Ready(ws) - ReadyOn(ws[i]) + ReadyOn(w)
    decreases |ws|
  {
    var n, v := |ws| - 1, ws[i := w];
    if i < n {
      assert v[..n] == ws[..n][i := w];
      ReadyUpdate(ws[..n], i, w);
    } else {
      assert v[..n] == ws[..n];
    }
  }

  lemma {:induction false} SomeReady(ws: seq<Worker>) returns (i: nat)
    requires Ready(ws) > 0
    ensures i < |ws| && ReadyOn(ws[i]) > 0
    decreases |ws|
  {
    var n := |ws| - 1;
    if ReadyOn(ws[n]) > 0 {
      i := n;
    } else {
      i := SomeReady(ws[..n]);
    }
  }

  /** Nobody sleeps while there are more tasks than workers on the way to them, one more being about to be signalled. */
  predicate Attended(s: State) {
    SomeSleeping(s) ==> |s.queue| <= Ready(s.workers) + if s.main.Signalling? then 1 else 0
  }

  /** So while tasks are waiting some worker is on its way or at work, or about to be signalled. */
  lemma NotStranded(s: State)
    requires Inv(s) && s.queue != [] && !s.main.Signalling?
    ensures SomeAwake(s)
  {
    if SomeSleeping(s) {
      var i := SomeReady(s.workers);
      assert Awake(s.workers[i]);
    } else {
      assert Awake(s.workers[0]);
    }
  }

  /** Shutdown comes after all submissions, wakes everybody for good, and only an empty queue lets a worker go. */
  predicate ShutdownOrder(s: State) {
    && (s.shutdown <==> s.main.Broadcasting? || s.main.Unlocking? || s.main.Joining?)
    && (s.main.Submitting? ==> s.main.todo != [])
    && (s.main.Unlocking? || s.main.Joining? ==> !SomeSleeping(s))
    && (forall i :: 0 <= i < |s.workers| && s.workers[i].Exited? ==> s.shutdown && s.queue == [])
  }

  predicate Inv(s: State) {
    && |s.workers| > 0
    && Mutex(s) && Conserved(s) && Attended(s) && ShutdownOrder(s)
  }

  lemma InitKeeps(s: State, workers: nat, tasks: seq<Task>)
    requires Init(s, workers, tasks)
    ensures Inv(s)
  {
    NoneRunning(s.workers);
  }

  lemma StepMutex(s: State, step: Step)
    requires Inv(s) && Enabled(s, step)
    ensures Mutex(After(s, step)) && |After(s, step).workers| == |s.workers|
  {
    hide Conserved, Attended, ShutdownOrder;
  }

  lemma StepConserved(s: State, step: Step)
    requires Inv(s) && Enabled(s, step)
    ensures Conserved(After(s, step))
  {
    hide Mutex, Attended, Running, ShutdownOrder;
    match step {
      case Signal(i) => if SomeSleeping(s) { RunningSame(s.workers, i, Woken); }
      case Broadcast => RunningWoken(s.workers);
      case Acquire(i) => RunningSame(s.workers, i, Checking);
      case Check(i) => CheckConserved(s, i);
      case Finish(i) => FinishConserved(s, i);
      case SpuriousWakeup(i) => RunningSame(s.workers, i, Woken);
      case _ =>
    }
  }

  lemma CheckConserved(s: State, i: nat)
    requires Conserved(s) && Enabled(s, Check(i))
    ensures Conserved(After(s, Check(i)))
  {
    hide Running;
    var t := After(s, Check(i));
    if s.queue == [] {
      RunningSame(s.workers, i, t.workers[i]);
    } else {
      RunningUpdate(s.workers, i, t.workers[i]);
      assert [s.queue[0]] + s.queue[1..] == s.queue;
      assert Running(t.workers) + multiset{} == Running(t.workers);
      assert s.done + (Running(s.workers) + multiset{s.queue[0]}) == s.done + Running(s.workers) + multiset{s.queue[0]};
    }
  }

  lemma FinishConserved(s: State, i: nat)
    requires Conserved(s) && Enabled(s, Finish(i))
    ensures Conserved(After(s, Finish(i)))
  {
    hide Running;
    RunningUpdate(s.workers, i, AtLock);
    var t := After(s, Finish(i));
    assert t.done + Running(t.workers) == s.done + (Running(t.workers) + multiset{s.workers[i].task});
  }

  lemma StepAttended(s: State, step: Step)
    requires Inv(s) && Enabled(s, step)
    ensures Attended(After(s, step))
  {
    hide Conserved, Mutex, Ready;
    var t := After(s, step);
    if SomeSleeping(t) && t.queue != [] {
      StillSleeping(s, step);
      match step {
        case Signal(i) => ReadyUpdate(s.workers, i, Woken);
        case Acquire(i) => ReadyUpdate(s.workers, i, Checking);
        case Check(i) => ReadyUpdate(s.workers, i, t.workers[i]);
        case Finish(i) => ReadyUpdate(s.workers, i, AtLock);
        case SpuriousWakeup(i) => ReadyUpdate(s.workers, i, Woken);
        case _ =>
      }
    }
  }

  /** With tasks waiting nobody goes to sleep. */
  lemma StillSleeping(s: State, step: Step)
    requires Enabled(s, step) && SomeSleeping(After(s, step)) && After(s, step).queue != []
    ensures SomeSleeping(s)
  {
    var t := After(s, step);
    var i :| 0 <= i < |t.workers| && t.workers[i].Sleeping?;
    assert s.workers[i].Sleeping?;
  }

  lemma StepShutdownOrder(s: State, step: Step)
    requires Inv(s) && Enabled(s, step)
    ensures ShutdownOrder(After(s, step))
  {
    hide Conserved, Attended;
  }

  /** Every step keeps the invariant. */
  lemma StepKeeps(s: State, step: Step)
    requires Inv(s) && Enabled(s, step)
    ensures Inv(After(s, step))
  {
    hide After, Mutex, Conserved, Attended, ShutdownOrder, Enabled;
    StepMutex(s, step);
    StepConserved(s, step);
    StepAttended(s, step);
    StepShutdownOrder(s, step);
  }

  // ---- shutdown ends

  function Rank(w: Worker): nat {
    match w
    case Exited => 0
    case Checking => 1
    case AtLock | Woken => 2
    case Sleeping | Executing(_) => 3
  }

  function Ranks(ws: seq<Worker>): nat {
    if ws == [] then 0 else Ranks(ws[..|ws| - 1]) + Rank(ws[|ws| - 1])
  }

  lemma {:induction false} RanksUpdate(ws: seq<Worker>, i: nat, w: Worker)
    requires i < |ws|
    ensures Ranks(ws[i := w]) == Ranks(ws) - Rank(ws[i]) + Rank(w)
    decreases |ws|
  {
    var n, v := |ws| - 1, ws[i := w];
    if i < n {
      assert v[..n] == ws[..n][i := w];
      RanksUpdate(ws[..n], i, w);
    } else {
      assert v[..n] == ws[..n];
    }
  }

  lemma {:induction false} RanksWoken(ws: seq<Worker>)
    ensures Ranks(WakeAll(ws)) <= Ranks(ws)
    decreases |ws|
  {
    if ws != [] {
      var n := |ws| - 1;
      assert WakeAll(ws)[..n] == WakeAll(ws[..n]);
      RanksWoken(ws[..n]);
    }
  }

  /** How many steps are left at most, once shutdown is requested. */
  function Measure(s: State): nat {
    3 * |s.queue| + Ranks(s.workers) + (if s.main.Broadcasting? then 2 else if s.main.Unlocking? then 1 else 0)
  }

  /** After the request every step, whosever it is, brings the end closer. */
  lemma Drains(s: State, step: Step)
    requires Inv(s) && s.shutdown && Enabled(s, step)
    ensures Measure(After(s, step)) < Measure(s) && After(s, step).shutdown
  {
    hide Ranks, Mutex, Conserved, Attended;
    match step {
      case Broadcast => RanksWoken(s.workers);
      case Acquire(i) => RanksUpdate(s.workers, i, Checking);
      case Check(i) => RanksUpdate(s.workers, i, After(s, step).workers[i]);
      case Finish(i) => RanksUpdate(s.workers, i, AtLock);
      case SpuriousWakeup(i) => RanksUpdate(s.workers, i, Woken);
      case _ =>
    }
  }

  /** After the broadcast nobody sleeps, and nobody goes to sleep again. */
  lemma NoMoreSleep(s: State, step: Step)
    requires Inv(s) && (s.main.Unlocking? || s.main.Joining?) && Enabled(s, step)
    ensures !SomeSleeping(s) && !SomeSleeping(After(s, step))
    ensures After(s, step).main.Unlocking? || After(s, step).main.Joining?
  {
    StepKeeps(s, step);
  }

  predicate Finished(s: State) {
    s.main.Joining? && forall i :: 0 <= i < |s.workers| ==> s.workers[i].Exited?
  }

  /** Until the end some thread can move, without waiting for a spurious wakeup: there is no deadlock. */
  lemma Progress(s: State) returns (step: Step)
    requires Inv(s) && !Finished(s)
    ensures Enabled(s, step) && !step.SpuriousWakeup?
  {
    hide Conserved, Attended;
    match s.owner {
      case ByWorker(i) => step := Check(i);
      case ByMain =>
        match s.main {
          case Submitting(_) => step := Submit;
          case Signalling(_) =>
            step := Signal(0);
            if SomeSleeping(s) {
              var i :| 0 <= i < |s.workers| && s.workers[i].Sleeping?;
              step := Signal(i);
            }
          case Stopping => step := SetShutdown;
          case Broadcasting => step := Broadcast;
          case _ => step := MainUnlock;
        }
      case Free =>
        if s.main.Outside? {
          step := MainLock;
        } else {
          var i :| 0 <= i < |s.workers| && !s.workers[i].Exited?;
          assert !s.workers[i].Sleeping?;
          step := if s.workers[i].Executing? then Finish(i) else Acquire(i);
        }
    }
  }

  /** At the end all that was accepted has been taken, in order, and executed once. */
  lemma FinishedDrained(s: State)
    requires Inv(s) && Finished(s)
    ensures s.queue == [] && s.taken == s.accepted && s.done == multiset(s.accepted)
  {
    NoneRunning(s.workers);
    assert s.workers[0].Exited?;
  }

  // ---- whole runs

  predicate Next(s: State, step: Step, t: State) {
    Enabled(s, step) && t == After(s, step)
  }

  lemma RunKeeps(states: seq<State>, steps: seq<Step>, workers: nat, tasks: seq<Task>, k: nat)
    requires Run(states, steps, Next) && Init(states[0], workers, tasks) && k < |states|
    ensures Inv(states[k])
  {
    hide Inv, After, Enabled;
    InitKeeps(states[0], workers, tasks);
    forall s, step, t | Inv(s) && Next(s, step, t) ensures Inv(t) {
      StepKeeps(s, step);
    }
    Keeps(states, steps, Next, Inv, 0, k);
  }

  /** From the shutdown request on, a run has at most `Measure` more steps. */
  lemma {:induction false} ShutdownBounded(states: seq<State>, steps: seq<Step>, workers: nat, tasks: seq<Task>, from: nat, k: nat)
    requires Run(states, steps, Next) && Init(states[0], workers, tasks) && from <= k < |states| && states[from].shutdown
    ensures states[k].shutdown && Measure(states[k]) + (k - from) <= Measure(states[from])
    decreases k
  {
    hide Inv, After, Enabled, Measure;
    if k > from {
      ShutdownBounded(states, steps, workers, tasks, from, k - 1);
      RunKeeps(states, steps, workers, tasks, k - 1);
      assert Next(states[k - 1], steps[k - 1], states[k]);
      Drains(states[k - 1], steps[k - 1]);
    }
  }

  /** What was taken is, in every state of every run, the beginning of what was accepted. */
  lemma FirstInFirstOut(states: seq<State>, steps: seq<Step>, workers: nat, tasks: seq<Task>, k: nat)
    requires Run(states, steps, Next) && Init(states[0], workers, tasks) && k < |states|
    ensures states[k].taken <= states[k].accepted && |states[k].queue| <= 256
    ensures states[k].queue == states[k].accepted[|states[k].taken|..]
    ensures SomeSleeping(states[k]) ==>
              |states[k].queue| <= Ready(states[k].workers) + if states[k].main.Signalling? then 1 else 0
    ensures states[k].queue != [] ==> SomeAwake(states[k]) || states[k].main.Signalling?
  {
    RunKeeps(states, steps, workers, tasks, k);
    if states[k].queue != [] && !states[k].main.Signalling? {
      NotStranded(states[k]);
    }
  }

  /** Whatever the schedule, a run that can go no further has stopped every worker and executed every accepted task once. */
  lemma RunsToTheEnd(states: seq<State>, steps: seq<Step>, workers: nat, tasks: seq<Task>)
    requires Run(states, steps, Next) && Init(states[0], workers, tasks)
    requires forall step :: Enabled(states[|steps|], step) ==> step.SpuriousWakeup?
    ensures var s := states[|steps|];
            Finished(s) && s.queue == [] && s.taken == s.accepted && s.done == multiset(s.accepted)
  {
    hide Inv, After, Enabled, Finished;
    RunKeeps(states, steps, workers, tasks, |steps|);
    var s := states[|steps|];
    if !Finished(s) {
      var step := Progress(s);
      assert false;
    }
    FinishedDrained(s);
  }

  function Todo(m: Main): seq<Task> {
    if m.Outside? || m.Submitting? || m.Signalling? || m.Leaving? then m.todo else []
  }

  /** As many tasks as the queue has places are all accepted. */
  lemma {:induction false} NothingDropped(states: seq<State>, steps: seq<Step>, workers: nat, tasks: seq<Task>, k: nat)
    requires Run(states, steps, Next) && Init(states[0], workers, tasks) && k < |states|
    requires |tasks| <= 256
    ensures states[k].accepted + Todo(states[k].main) == tasks
    decreases k
  {
    hide Inv;
    if k == 0 {
      assert [] + tasks == tasks;
    } else {
      RunKeeps(states, steps, workers, tasks, k - 1);
      NothingDropped(states, steps, workers, tasks, k - 1);
      assert Next(states[k - 1], steps[k - 1], states[k]);
      StepDropsNothing(states[k - 1], steps[k - 1], tasks);
    }
  }

  lemma StepDropsNothing(s: State, step: Step, tasks: seq<Task>)
    requires Inv(s) && Enabled(s, step) && |tasks| <= QUEUE_SIZE
    requires s.accepted + Todo(s.main) == tasks
    ensures After(s, step).accepted + Todo(After(s, step).main) == tasks
  {
    hide Mutex, Attended, Running;
    if step.Submit? {
      assert |s.accepted| + |s.main.todo| == |tasks|;
      assert s.accepted + [s.main.todo[0]] + s.main.todo[1..] == tasks;
    }
  }

  /** The main thread alone has submitted the first tasks, and no worker has been at the lock yet. */
  function Filled(s: State, tasks: seq<Task>, j: nat): State
    requires j <= |tasks|
  {
    s.(main := Outside(tasks[j..]), queue := tasks[..j], accepted := tasks[..j])
  }

  lemma {:induction false} Fills(s: State, workers: nat, tasks: seq<Task>, j: nat) returns (states: seq<State>, steps: seq<Step>)
    requires Init(s, workers, tasks) && j <= |tasks| && j <= QUEUE_SIZE
    ensures Run(states, steps, Next) && states[0] == s && states[|steps|] == Filled(s, tasks, j)
    decreases j
  {
    if j == 0 {
      states, steps := [s], [];
      assert tasks[0..] == tasks;
    } else {
      states, steps := Fills(s, workers, tasks, j - 1);
      states, steps := SubmitsAlone(s, workers, tasks, j - 1, states, steps);
    }
  }

  /** One `submitTask` from the lock to the unlocking. */
  lemma SubmitsAlone(s: State, workers: nat, tasks: seq<Task>, j: nat, states: seq<State>, steps: seq<Step>)
    returns (longer: seq<State>, all: seq<Step>)
    requires Init(s, workers, tasks) && j < |tasks| && j < QUEUE_SIZE
    requires Run(states, steps, Next) && states[0] == s && states[|steps|] == Filled(s, tasks, j)
    ensures Run(longer, all, Next) && longer[0] == s && longer[|all|] == Filled(s, tasks, j + 1)
  {
    var todo := tasks[j + 1..];
    assert tasks[j..][1..] == todo && tasks[..j] + [tasks[j]] == tasks[..j + 1];
    var locked := Filled(s, tasks, j).(owner := ByMain, main := Submitting(tasks[j..]));
    var submitted := Filled(s, tasks, j + 1).(owner := ByMain, main := Signalling(todo));
    var signalled := submitted.(main := Leaving(todo));
    longer, all := Goes(states, steps, MainLock, locked);
    longer, all := Goes(longer, all, Submit, submitted);
    longer, all := Goes(longer, all, Signal(0), signalled);
    longer, all := Goes(longer, all, MainUnlock, Filled(s, tasks, j + 1));
  }

  lemma Goes(states: seq<State>, steps: seq<Step>, step: Step, t: State) returns (longer: seq<State>, all: seq<Step>)
    requires Run(states, steps, Next) && |states| == |steps| + 1 && Next(states[|steps|], step, t)
    ensures Run(longer, all, Next) && |longer| == |all| + 1 && longer[0] == states[0] && longer[|all|] == t
  {
    hide Next;
    longer, all := states + [t], steps + [step];
    Extend(states, steps, Next, step, t);
  }

  /** With more tasks than that there is a run that drops one: submitting faster than the workers start. */
  lemma Overfull(s: State, workers: nat, tasks: seq<Task>) returns (states: seq<State>, steps: seq<Step>)
    requires Init(s, workers, tasks) && |tasks| > 256
    ensures Run(states, steps, Next) && states[0] == s
    ensures |states[|steps|].accepted| + |Todo(states[|steps|].main)| < |tasks|
  {
    var full := Filled(s, tasks, QUEUE_SIZE);
    states, steps := Fills(s, workers, tasks, QUEUE_SIZE);
    var locked := full.(owner := ByMain, main := Submitting(full.main.todo));
    states, steps := Goes(states, steps, MainLock, locked);
    states, steps := Goes(states, steps, Submit, locked.(main := Leaving(full.main.todo[1..])));
  }

  // ---- the queue in its array

  /** `taskQueue` and `taskCount`. */
  class TaskQueue {
    const taskQueue: array<Task>
    var taskCount: nat

    ghost predicate Valid()
      reads this, taskQueue
    {
      taskQueue.Length == QUEUE_SIZE && taskCount <= QUEUE_SIZE
    }

    ghost function Contents(): seq<Task>
      requires Valid()
      reads this, taskQueue
    {
      taskQueue[..taskCount]
    }

    constructor ()
      ensures Valid() && Contents() == [] && fresh(taskQueue)
    {
      taskQueue := new Task[QUEUE_SIZE];
      taskCount := 0;
    }

    /** The update of `submitTask`. */
    method Push(task: Task) returns (accepted: bool)
      requires Valid()
      modifies this, taskQueue
      ensures Valid() && accepted == (|old(Contents())| < QUEUE_SIZE)
      ensures Contents() == if accepted then old(Contents()) + [task] else old(Contents())
    {
      accepted := taskCount < QUEUE_SIZE;
      if accepted {
        taskQueue[taskCount] := task;
        taskCount := taskCount + 1;
      }
    }

    /** The removal in `startThread`, by shifting the rest. */
    method Take() returns (task: Task)
      requires Valid() && Contents() != []
      modifies this, taskQueue
      ensures Valid() && [task] + Contents() == old(Contents())
    {
      task := taskQueue[0];
      for i := 0 to taskCount - 1
        invariant taskCount == old(taskCount)
        invariant forall k :: 0 <= k < i ==> taskQueue[k] == old(taskQueue[k + 1])
        invariant forall k :: i <= k < taskCount ==> taskQueue[k] == old(taskQueue[k])
      {
        taskQueue[i] := taskQueue[i + 1];
      }
      taskCount := taskCount - 1;
      assert Contents() == old(taskQueue[1..taskCount]);
    }

    /** The queue of a state of the pool. */
    ghost predicate Is(s: State)
      reads this, taskQueue
    {
      Valid() && Contents() == s.queue
    }

    /** `submitTask` under the mutex is the step `Submit`: it signals when it has accepted the task. */
    method SubmitTask(task: Task, ghost s: State) returns (signals: bool)
      requires Is(s) && Enabled(s, Submit) && s.main.todo != [] && task == s.main.todo[0]
      modifies this, taskQueue
      ensures Is(After(s, Submit))
      ensures After(s, Submit).main == if signals then Signalling(s.main.todo[1..]) else Leaving(s.main.todo[1..])
    {
      signals := Push(task);
    }

    /** The tests of `startThread` and its removal are the step `Check`; `next` is where the worker then is. */
    method CheckQueue(shutdown: bool, ghost i: nat, ghost s: State) returns (next: Worker)
      requires Is(s) && Enabled(s, Check(i)) && shutdown == s.shutdown
      modifies this, taskQueue
      ensures Is(After(s, Check(i))) && next == After(s, Check(i)).workers[i]
    {
      if taskCount == 0 && !shutdown {
        return Sleeping;
      }
      if taskCount == 0 {
        return Exited;
      }
      var task := Take();
      assert s.queue == [task] + Contents();
      return Executing(task);
    }
  }
}
