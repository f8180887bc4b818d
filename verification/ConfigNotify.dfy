/**
 The hand-over of the configuration from the monitor thread to the server
 thread: a shared record under a lock, and an event counter that the monitor
 raises after unlocking and the server drains before locking.
 */
module ConfigNotify {
  import opened Runs

  datatype Config = Config(version: seq<char>, period: int)

  /** `Loading` has parsed a file; `Locked` is in the critical section, `Notifying` behind it, about to raise the counter. */
  datatype Monitor = Watching | Loading(next: Config, initial: bool) | Locked(next: Config, initial: bool) | Notifying

  /** `Starting`, `Copying` and `Refreshing` hold the lock, the last for the timer; `Drained` has emptied the counter. */
  datatype Server = NotStarted | Starting | Serving | Drained | Copying | Timed | Refreshing

  datatype Owner = Free | ByMonitor | ByServer

  /** `shared` is `g_cfg`, `events` the event counter, `applied` the server's local copy. */
  datatype State = State(shared: Config, events: nat, applied: Config, owner: Owner, monitor: Monitor, server: Server)

  datatype Step = Parsed(next: Config) | MonitorLock | MonitorStore | MonitorNotify
                | ServerStart | ServerFirstCopy | ServerDrain | ServerLock | ServerCopy
                | TimerExpires | TimerLock | TimerCopy

  /** Before the threads run; `initial` is what the monitor finds at startup, if anything. */
  predicate Init(s: State, found: bool, initial: Config) {
    && s.events == 0 && s.owner.Free? && s.server.NotStarted?
    && s.monitor == if found then Loading(initial, true) else Watching
  }

  predicate Enabled(s: State, step: Step) {
    match step
    case Parsed(_) => s.monitor.Watching?
    case MonitorLock => s.monitor.Loading? && s.owner.Free?
    case MonitorStore => s.monitor.Locked?
    case MonitorNotify => s.monitor.Notifying?
    case ServerStart => s.server.NotStarted? && s.owner.Free?
    case ServerFirstCopy => s.server.Starting?
    case ServerDrain => s.server.Serving? && s.events > 0
    case ServerLock => s.server.Drained? && s.owner.Free?
    case ServerCopy => s.server.Copying?
    case TimerExpires => s.server.Serving?
    case TimerLock => s.server.Timed? && s.owner.Free?
    case TimerCopy => s.server.Refreshing?
  }

  /** A file that says what is known already is stored without notice, unless it is the first; the timer refreshes the version alone. */
  function After(s: State, step: Step): State
    requires Enabled(s, step)
  {
    match step
    case Parsed(next) => s.(monitor := Loading(next, false))
    case MonitorLock => s.(owner := ByMonitor, monitor := Locked(s.monitor.next, s.monitor.initial))
    case MonitorStore =>
      var changed := s.monitor.next != s.shared;
      s.(shared := s.monitor.next, owner := Free, monitor := if changed || s.monitor.initial then Notifying else Watching)
    case MonitorNotify => s.(events := s.events + 1, monitor := Watching)
    case ServerStart => s.(owner := ByServer, server := Starting)
    case ServerFirstCopy => s.(applied := s.shared, owner := Free, server := Serving)
    case ServerDrain => s.(events := 0, server := Drained)
    case ServerLock => s.(owner := ByServer, server := Copying)
    case ServerCopy => s.(applied := s.shared, owner := Free, server := Serving)
    case TimerExpires => s.(server := Timed)
    case TimerLock => s.(owner := ByServer, server := Refreshing)
    case TimerCopy => s.(applied := s.applied.(version := s.shared.version), owner := Free, server := Serving)
  }

  predicate Started(s: State) {
    !s.server.NotStarted? && !s.server.Starting?
  }

  /** An update is on its way. */
  predicate InFlight(s: State) {
    s.monitor.Notifying? || s.events > 0 || s.server.Drained? || s.server.Copying?
  }

  predicate Inv(s: State) {
    && (s.owner.ByMonitor? <==> s.monitor.Locked?)
    && (s.owner.ByServer? <==> s.server.Starting? || s.server.Copying? || s.server.Refreshing?)
    && (Started(s) && s.applied != s.shared ==> InFlight(s))
  }

  lemma InitKeeps(s: State, found: bool, initial: Config)
    requires Init(s, found, initial)
    ensures Inv(s)
  {}

  lemma StepKeeps(s: State, step: Step)
    requires Inv(s) && Enabled(s, step)
    ensures Inv(After(s, step))
  {}

  predicate Next(s: State, step: Step, t: State) {
    Enabled(s, step) && t == After(s, step)
  }

  /** No update is lost: as long as the server works with another configuration than the stored one, it is going to hear of it. */
  lemma NoLostUpdate(states: seq<State>, steps: seq<Step>, found: bool, initial: Config, k: nat)
    requires Run(states, steps, Next) && Init(states[0], found, initial) && k < |states|
    ensures Inv(states[k])
    ensures Started(states[k]) && states[k].applied != states[k].shared ==> InFlight(states[k])
  {
    InitKeeps(states[0], found, initial);
    forall s, step, t | Inv(s) && Next(s, step, t) ensures Inv(t) {
      StepKeeps(s, step);
    }
    Keeps(states, steps, Next, Inv, 0, k);
  }

  /** How far the server is from having copied. */
  function Distance(s: State): nat {
    if s.server.Copying? then 1
    else if s.server.Drained? then 2
    else if s.server.Serving? then 3
    else if s.server.Refreshing? then 4
    else 5
  }

  /** A step of the server that its event loop owes to a raised counter. */
  predicate Delivery(step: Step) {
    step.ServerDrain? || step.ServerLock? || step.ServerCopy? || step.TimerLock? || step.TimerCopy?
  }

  /** While the monitor is idle, a server that is behind has such a step to take, */
  lemma CanDeliver(s: State) returns (step: Step)
    requires Inv(s) && Started(s) && s.monitor.Watching? && s.applied != s.shared
    ensures Enabled(s, step) && Delivery(step)
  {
    match s.server {
      case Serving => step := ServerDrain;
      case Drained => step := ServerLock;
      case Copying => step := ServerCopy;
      case Timed => step := TimerLock;
      case Refreshing => step := TimerCopy;
    }
  }

  /** and each one brings it closer, until it is up to date. */
  lemma Delivers(s: State, step: Step)
    requires Inv(s) && Started(s) && s.monitor.Watching? && s.applied != s.shared
    requires Enabled(s, step) && Delivery(step)
    ensures var t := After(s, step);
            t.monitor.Watching? && t.shared == s.shared && (t.applied == t.shared || Distance(t) < Distance(s))
  {}

  // ---- which configuration it is

  /** The parsed configuration is on its way to the record, or is there. */
  predicate Arriving(s: State, c: Config) {
    match s.monitor
    case Loading(next, _) => next == c
    case Locked(next, _) => next == c
    case _ => s.shared == c
  }

  /** From the parse of a file to the next one, its configuration is on its way or stored. */
  lemma {:induction false} ParsedArrives(states: seq<State>, steps: seq<Step>, i: nat, k: nat, c: Config)
    requires Run(states, steps, Next) && i < k < |states|
    requires steps[i] == Parsed(c) && forall j :: i < j < k ==> !steps[j].Parsed?
    ensures Arriving(states[k], c)
    decreases k
  {
    assert Next(states[k - 1], steps[k - 1], states[k]);
    if i < k - 1 {
      ParsedArrives(states, steps, i, k - 1, c);
    }
  }

  /** The last file that was parsed is what the server works with, once the monitor is idle and nothing is in flight. */
  lemma LastParsedServed(states: seq<State>, steps: seq<Step>, found: bool, initial: Config, i: nat, k: nat, c: Config)
    requires Run(states, steps, Next) && Init(states[0], found, initial) && i < k < |states|
    requires steps[i] == Parsed(c) && forall j :: i < j < k ==> !steps[j].Parsed?
    requires Started(states[k]) && states[k].monitor.Watching? && !InFlight(states[k])
    ensures states[k].applied == states[k].shared == c
  {
    NoLostUpdate(states, steps, found, initial, k);
    ParsedArrives(states, steps, i, k, c);
  }

  /** The server's period is that of a configuration that was stored, and its version that of the same one or of a later one. */
  ghost predicate Untorn(states: seq<State>, i: nat, j: nat, k: nat) {
    && i <= j <= k < |states|
    && states[k].applied == Config(states[j].shared.version, states[i].shared.period)
  }

  lemma {:induction false} NeverTorn(states: seq<State>, steps: seq<Step>, found: bool, initial: Config, k: nat)
    returns (i: nat, j: nat)
    requires Run(states, steps, Next) && Init(states[0], found, initial) && k < |states| && Started(states[k])
    ensures Untorn(states, i, j, k)
    decreases k
  {
    assert k > 0;
    assert Next(states[k - 1], steps[k - 1], states[k]);
    if !Started(states[k - 1]) || steps[k - 1].ServerCopy? {
      i, j := k - 1, k - 1;
    } else {
      i, j := NeverTorn(states, steps, found, initial, k - 1);
      if steps[k - 1].TimerCopy? {
        j := k - 1;
      }
    }
  }

  /** When the timer has gone off, the clients are told the version that is stored then, with the period as it was applied. */
  lemma TimerShows(s: State, t: State)
    requires Next(s, TimerCopy, t)
    ensures t.applied == Config(s.shared.version, s.applied.period) && t.shared == s.shared
  {}
}
