/** The tracker's background machinery: a collector that marks scopes dirty, a worker that
    drains and reconciles them, and callers that reconcile at any time.  Every access to shared
    state is a step of its own, so the runs are all interleavings. */
module RunLoop {
  import opened Paths
  import opened Entries
  import opened Scopes

  datatype TrackerState = Syncing | Synced | Dirty | Reconciling | Stopped | Degraded

  /** How the collector ends the handling of a notification. */
  datatype Then = Arm | Wake

  /** Where the collector is: between notifications, or about to add a scope, to store the dirty
      flag, to set the state, to arm the timer or wake the worker. */
  datatype Collector = Resting | Adding(scope: Path, andThen: Then) | Flagging(andThen: Then) | Marking(andThen: Then)
                     | Finishing(andThen: Then)

  /** Where the worker is; while draining it holds the lock of the dirty set. */
  datatype Worker = Idle | Taken | Draining(some: bool) | Waiting

  /** The one reconciliation that can run at a time.  `announced` ones have set the state; while
      `Checking`, the flag has been read and the state lock is held. */
  datatype Pass = Outside | Inside(byWorker: bool, announced: bool) | Checking(byWorker: bool, sawFlag: bool)

  datatype Machine = Machine(dirty: set<Path>, flag: bool, token: bool, armed: bool, collector: Collector,
                             worker: Worker, pass: Pass, state: TrackerState, closed: bool, healthy: bool)

  datatype Action =
    | NativeEvent(scope: Path) | BackendError | BackendStops | Tick | QuietFires
    | AddDirty | SetFlag | MarkDirty | Finish
    | TakeToken | Drain | ClearFlag
    | Begin(byWorker: bool, announced: bool) | LoadFlag | Publish | Fail | Quit
    | Close

  const INITIAL := Machine({}, false, false, false, Resting, Idle, Outside, Syncing, false, true)

  predicate LockFree(m: Machine) {
    !m.pass.Checking?
  }

  function Set(m: Machine, s: TrackerState): TrackerState {
    if m.closed then m.state else s
  }

  /** The state that reports dirtiness. */
  function Unclean(m: Machine): TrackerState {
    Set(m, if m.healthy then Dirty else Degraded)
  }

  function Consistent(m: Machine, sawFlag: bool): TrackerState {
    Set(m, if !m.healthy then Degraded else if sawFlag then Dirty else Synced)
  }

  function Leave(m: Machine, byWorker: bool): Machine {
    m.(pass := Outside, worker := if byWorker then Idle else m.worker)
  }

  /** The machine after an action; none if the action cannot happen now. */
  ghost function Do(root: Path, m: Machine, a: Action): Option<Machine> {
    match a
    case NativeEvent(scope) =>
      if m.collector.Resting? then Some(m.(collector := Adding(scope, Arm))) else None
    case BackendError =>
      if m.collector.Resting? && LockFree(m) then
        Some(m.(collector := Adding(root, Wake), state := Unclean(m)))
      else None
    case BackendStops =>
      if m.collector.Resting? && LockFree(m) then
        Some(m.(collector := Adding(root, Wake), healthy := m.closed && m.healthy, state := Set(m, Degraded)))
      else None
    case Tick =>
      if m.collector.Resting? then Some(m.(collector := Adding(root, Wake), armed := false)) else None
    case QuietFires =>
      if m.collector.Resting? && m.armed then Some(m.(collector := Finishing(Wake), armed := false)) else None
    case AddDirty =>
      if m.collector.Adding? && !m.worker.Draining? then
        Some(m.(dirty := Absorb(m.dirty, m.collector.scope), collector := Flagging(m.collector.andThen)))
      else None
    case SetFlag =>
      if m.collector.Flagging? then Some(m.(flag := true, collector := Marking(m.collector.andThen))) else None
    case MarkDirty =>
      if m.collector.Marking? && LockFree(m) then
        Some(m.(state := Unclean(m), collector := Finishing(m.collector.andThen)))
      else None
    case Finish =>
      if !m.collector.Finishing? then None
      else if m.collector.andThen.Arm? then Some(m.(armed := true, collector := Resting))
      else Some(m.(token := true, collector := Resting))
    case TakeToken =>
      if m.worker.Idle? && m.token then Some(m.(token := false, worker := Taken)) else None
    case Drain =>
      if m.worker.Taken? then Some(m.(dirty := {}, worker := Draining(m.dirty != {}))) else None
    case ClearFlag =>
      if m.worker.Draining? then Some(m.(flag := false, worker := if m.worker.some then Waiting else Idle)) else None
    case Begin(byWorker, announced) =>
      if m.pass.Outside? && (byWorker ==> m.worker.Waiting?) then
        Some(m.(pass := Inside(byWorker, announced), state := if announced then Set(m, Reconciling) else m.state))
      else None
    case LoadFlag =>
      if m.pass.Inside? then Some(m.(pass := Checking(m.pass.byWorker, m.flag))) else None
    case Publish =>
      if m.pass.Checking? then
        Some(Leave(m.(state := Consistent(m, m.pass.sawFlag)), m.pass.byWorker))
      else None
    case Fail =>
      if m.pass.Inside? && m.pass.announced then Some(Leave(m.(state := Unclean(m)), m.pass.byWorker)) else None
    case Quit =>
      if m.pass.Inside? && !m.pass.announced then Some(Leave(m, m.pass.byWorker)) else None
    case Close =>
      if LockFree(m) then Some(m.(closed := true, state := Stopped)) else None
  }

  /** A run takes the actions that can happen, in order. */
  ghost function Run(root: Path, actions: seq<Action>, n: nat): Machine
    requires n <= |actions|
  {
    if n == 0 then INITIAL else
      var m := Run(root, actions, n - 1);
      match Do(root, m, actions[n - 1]) case Some(m') => m' case None => m
  }

  /*** No dirty scope is forgotten ***/

  /** A reconciliation is coming: a token waits, the worker has taken one, or the timer is armed. */
  predicate Owed(m: Machine) {
    m.token || m.worker.Taken? || m.armed
  }

  /** The collector has added a scope but not yet set the state. */
  predicate Reporting(m: Machine) {
    m.collector.Flagging? || m.collector.Marking?
  }

  ghost predicate Safe(m: Machine) {
    && (m.dirty != {} && m.collector.Resting? ==> Owed(m))
    && (m.dirty != {} ==> m.flag || m.collector.Flagging?)
    && (m.worker.Draining? ==> m.dirty == {})
    && (!m.pass.Outside? && m.pass.byWorker ==> m.worker.Waiting?)
    && (m.dirty != {} && !Reporting(m) ==> m.state != Synced)
    && (m.pass.Checking? && !m.pass.sawFlag ==> m.dirty == {} || Reporting(m))
    && (m.closed ==> m.state == Stopped)
  }

  lemma StepIsSafe(root: Path, m: Machine, a: Action)
    requires Safe(m) && Do(root, m, a).Some?
    ensures Safe(Do(root, m, a).value)
  {
    match a
    case AddDirty =>
    case SetFlag =>
    case MarkDirty =>
    case Finish =>
    case Drain =>
    case ClearFlag =>
    case LoadFlag =>
    case Publish =>
    case _ =>
  }

  lemma {:induction false} EveryRunIsSafe(root: Path, actions: seq<Action>, n: nat)
    requires n <= |actions|
    ensures Safe(Run(root, actions, n))
  {
    if n > 0 {
      EveryRunIsSafe(root, actions, n - 1);
      var m := Run(root, actions, n - 1);
      if Do(root, m, actions[n - 1]).Some? {
        StepIsSafe(root, m, actions[n - 1]);
      }
    }
  }

  /** In every interleaving: when the collector is between notifications and a scope is dirty, a
      reconciliation is owed, the dirty flag is set and the tracker does not claim to be in sync. */
  lemma DirtyIsOwed(root: Path, actions: seq<Action>, n: nat)
    requires n <= |actions|
    ensures var m := Run(root, actions, n);
            m.collector.Resting? && m.dirty != {} ==> Owed(m) && m.flag && m.state != Synced
  {
    EveryRunIsSafe(root, actions, n);
  }

  /** The scope that an action makes the collector add: that of a notification, or the root. */
  function Demands(root: Path, a: Action): Option<Path> {
    match a
    case NativeEvent(scope) => Some(scope)
    case BackendError => Some(root)
    case BackendStops => Some(root)
    case Tick => Some(root)
    case _ => None
  }

  /** The scope is covered, or the collector is about to add it. */
  ghost predicate OnItsWay(m: Machine, s: Path) {
    (m.collector.Adding? && m.collector.scope == s) || Covers(m.dirty, s)
  }

  lemma StepKeepsOnItsWay(root: Path, m: Machine, a: Action, s: Path)
    requires Do(root, m, a).Some? && !a.Drain?
    requires OnItsWay(m, s) || Demands(root, a) == Some(s)
    ensures OnItsWay(Do(root, m, a).value, s)
  {
    if a.AddDirty? {
      AbsorbCovers(m.dirty, m.collector.scope, s);
    }
  }

  /** In every interleaving: what a notification, an error, a stop of the backend or a tick demands
      is covered once the collector is between notifications again, unless it was drained. */
  lemma {:induction false} DemandedIsCovered(root: Path, actions: seq<Action>, i: nat, n: nat, s: Path)
    requires i < n <= |actions| && forall j | i < j < n :: !actions[j].Drain?
    requires Do(root, Run(root, actions, i), actions[i]).Some? && Demands(root, actions[i]) == Some(s)
    ensures OnItsWay(Run(root, actions, n), s)
    ensures Run(root, actions, n).collector.Resting? ==> Covers(Run(root, actions, n).dirty, s)
    decreases n
  {
    var m, a := Run(root, actions, n - 1), actions[n - 1];
    if i < n - 1 {
      DemandedIsCovered(root, actions, i, n - 1, s);
    }
    if Do(root, m, a).Some? {
      StepKeepsOnItsWay(root, m, a, s);
    }
  }

  /*** Degraded stays degraded ***/

  ghost predicate Sticky(m: Machine) {
    && (m.closed ==> m.state == Stopped)
    && (!m.healthy && !m.closed ==>
          m.state == Degraded || (m.state == Reconciling && !m.pass.Outside? && (m.pass.Inside? ==> m.pass.announced)))
  }

  lemma StepIsSticky(root: Path, m: Machine, a: Action)
    requires Sticky(m) && Do(root, m, a).Some?
    ensures Sticky(Do(root, m, a).value)
    ensures !m.healthy ==> !Do(root, m, a).value.healthy
    ensures m.closed ==> Do(root, m, a).value.closed
  {}

  lemma {:induction false} EveryRunIsSticky(root: Path, actions: seq<Action>, n: nat)
    requires n <= |actions|
    ensures Sticky(Run(root, actions, n))
  {
    if n > 0 {
      EveryRunIsSticky(root, actions, n - 1);
      var m := Run(root, actions, n - 1);
      if Do(root, m, actions[n - 1]).Some? {
        StepIsSticky(root, m, actions[n - 1]);
      }
    }
  }

  lemma {:induction false} NeverRecovers(root: Path, actions: seq<Action>, k: nat, n: nat)
    requires k <= n <= |actions|
    ensures !Run(root, actions, k).healthy ==> !Run(root, actions, n).healthy
    ensures Run(root, actions, k).closed ==> Run(root, actions, n).closed
    decreases n
  {
    if n > k {
      NeverRecovers(root, actions, k, n - 1);
      var m := Run(root, actions, n - 1);
      EveryRunIsSticky(root, actions, n - 1);
      if Do(root, m, actions[n - 1]).Some? {
        StepIsSticky(root, m, actions[n - 1]);
      }
    }
  }

  /** Once the backend has stopped, no interleaving leads to any other state than degraded when
      no reconciliation is running; and a closed tracker stays stopped. */
  lemma DegradedIsSticky(root: Path, actions: seq<Action>, k: nat, n: nat)
    requires k <= n <= |actions|
    ensures var m, m' := Run(root, actions, k), Run(root, actions, n);
            && (!m.healthy && !m'.closed && m'.pass.Outside? ==> m'.state == Degraded)
            && (m.closed ==> m'.state == Stopped)
  {
    NeverRecovers(root, actions, k, n);
    EveryRunIsSticky(root, actions, n);
  }

  /*** Which state is reported ***/

  /** The actions of a run that really happened, in order. */
  ghost function History(root: Path, actions: seq<Action>, n: nat): seq<Action>
    requires n <= |actions|
  {
    if n == 0 then [] else
      History(root, actions, n - 1)
      + if Do(root, Run(root, actions, n - 1), actions[n - 1]).Some? then [actions[n - 1]] else []
  }

  function Init(h: seq<Action>): seq<Action>
    requires h != []
  {
    h[..|h| - 1]
  }

  function Last(h: seq<Action>): Action
    requires h != []
  {
    h[|h| - 1]
  }

  /** Whether the dirty flag was set after it was last cleared. */
  predicate FlagUp(h: seq<Action>) {
    h != [] && (Last(h).SetFlag? || (!Last(h).ClearFlag? && FlagUp(Init(h))))
  }

  /** Whether the flag was up when a pass last read it. */
  predicate LastReadUp(h: seq<Action>) {
    h != [] && if Last(h).LoadFlag? then FlagUp(Init(h)) else LastReadUp(Init(h))
  }

  predicate ClosedBefore(h: seq<Action>) {
    h != [] && (Last(h).Close? || ClosedBefore(Init(h)))
  }

  /** The backend stopped while the tracker was open. */
  predicate StoppedBefore(h: seq<Action>) {
    h != [] && ((Last(h).BackendStops? && !ClosedBefore(Init(h))) || StoppedBefore(Init(h)))
  }

  /** The steps, other than publishing, that report a state. */
  predicate Reports(a: Action) {
    a.BackendError? || a.BackendStops? || a.MarkDirty? || (a.Begin? && a.announced) || a.Fail? || a.Close?
  }

  /** The last pass that published had read the flag down, with the backend running and the tracker
      open; and since then nothing else was reported: no notification or error was handled, no pass
      announced itself or failed, the backend did not stop and nobody closed. */
  predicate Settled(h: seq<Action>) {
    && h != []
    && if Last(h).Publish? then !LastReadUp(Init(h)) && !StoppedBefore(Init(h)) && !ClosedBefore(Init(h))
       else Settled(Init(h)) && !Reports(Last(h))
  }

  /** Nothing was reported yet. */
  predicate Untouched(h: seq<Action>) {
    h != [] ==> !Last(h).Publish? && !Reports(Last(h)) && Untouched(Init(h))
  }

  /** What the machine remembers is the history. */
  ghost predicate Remembers(h: seq<Action>, m: Machine) {
    && (m.flag <==> FlagUp(h))
    && (m.pass.Checking? ==> (m.pass.sawFlag <==> LastReadUp(h)))
    && (m.closed <==> ClosedBefore(h))
    && (m.healthy <==> !StoppedBefore(h))
    && (m.closed ==> m.state == Stopped)
    && (m.state == Synced <==> Settled(h))
    && (m.state == Syncing <==> Untouched(h))
    && (m.state == Stopped ==> m.closed) && (m.state == Degraded ==> !m.healthy)
    && (m.state == Reconciling ==> !m.pass.Outside? && (m.pass.Inside? ==> m.pass.announced))
  }

  /** What a step does to all that is not about the state. */
  ghost predicate Records(m: Machine, a: Action, m': Machine) {
    && (m'.flag <==> a.SetFlag? || (!a.ClearFlag? && m.flag))
    && (a.LoadFlag? ==> m'.pass.Checking? && m'.pass.sawFlag == m.flag)
    && (m'.pass.Checking? && !a.LoadFlag? ==> m'.pass == m.pass)
    && (a.Publish? ==> m.pass.Checking?)
    && (m'.closed <==> m.closed || a.Close?)
    && (m'.healthy <==> m.healthy && !(a.BackendStops? && !m.closed))
  }

  /** What a step does to the state. */
  ghost predicate ShowsState(m: Machine, a: Action, m': Machine) {
    && (a.Close? ==> m'.state == Stopped)
    && (m.closed ==> m'.state == if a.Close? then Stopped else m.state)
    && (!m.closed && a.Publish? && m.pass.Checking? ==>
          m'.state == if !m.healthy then Degraded else if m.pass.sawFlag then Dirty else Synced)
    && (!m.closed && Reports(a) && !a.Close? ==> m'.state in {Dirty, Degraded, Reconciling})
    && (!m.closed && m'.state == Degraded && m.state != Degraded ==> !m'.healthy)
    && (m'.state == Reconciling && m.state != Reconciling ==> m'.pass.Inside? && m'.pass.announced)
    && (m'.state == Reconciling && m.state == Reconciling && !m.closed
        && !m.pass.Outside? && (m.pass.Inside? ==> m.pass.announced) ==>
          !m'.pass.Outside? && (m'.pass.Inside? ==> m'.pass.announced))
    && (!Reports(a) && !a.Publish? ==> m'.state == m.state)
  }

  lemma StepRecords(root: Path, m: Machine, a: Action)
    requires Do(root, m, a).Some?
    ensures Records(m, a, Do(root, m, a).value)
  {}

  lemma StepShowsState(root: Path, m: Machine, a: Action)
    requires Do(root, m, a).Some?
    ensures ShowsState(m, a, Do(root, m, a).value)
  {}

  lemma RemembersMore(h: seq<Action>, m: Machine, a: Action, m': Machine)
    requires Remembers(h, m) && Records(m, a, m') && ShowsState(m, a, m')
    ensures Remembers(h + [a], m')
  {
    assert Init(h + [a]) == h && Last(h + [a]) == a;
  }

  lemma {:induction false} RunRemembers(root: Path, actions: seq<Action>, n: nat)
    requires n <= |actions|
    ensures Remembers(History(root, actions, n), Run(root, actions, n))
  {
    if n > 0 {
      RunRemembers(root, actions, n - 1);
      var h, m, a := History(root, actions, n - 1), Run(root, actions, n - 1), actions[n - 1];
      if Do(root, m, a).Some? {
        StepRecords(root, m, a);
        StepShowsState(root, m, a);
        RemembersMore(h, m, a, Do(root, m, a).value);
      } else {
        assert h + [] == h;
      }
    }
  }

  /** In every interleaving, at every moment: the tracker reports to be in sync exactly if it has
      settled. */
  lemma SyncedExactly(root: Path, actions: seq<Action>, n: nat)
    requires n <= |actions|
    ensures Run(root, actions, n).state == Synced <==> Settled(History(root, actions, n))
  {
    RunRemembers(root, actions, n);
  }

  /** The state whenever no pass is running. */
  lemma RestingStateExactly(root: Path, actions: seq<Action>, n: nat)
    requires n <= |actions| && Run(root, actions, n).pass.Outside?
    ensures var h := History(root, actions, n);
            Run(root, actions, n).state ==
              if ClosedBefore(h) then Stopped
              else if StoppedBefore(h) then Degraded
              else if Settled(h) then Synced
              else if Untouched(h) then Syncing
              else Dirty
  {
    RunRemembers(root, actions, n);
    EveryRunIsSticky(root, actions, n);
  }

  /** The first pass of a quiet tracker ends in sync. */
  lemma FirstPassSettles(root: Path, actions: seq<Action>)
    requires actions == [Begin(false, true), LoadFlag, Publish]
    ensures Run(root, actions, 3).state == Synced && History(root, actions, 3) == actions
  {
    Reaches(root, actions, 0, Open({}, false, false, false, Resting, Idle, Inside(false, true), Reconciling));
    Reaches(root, actions, 1, Open({}, false, false, false, Resting, Idle, Checking(false, false), Reconciling));
    Reaches(root, actions, 2, Open({}, false, false, false, Resting, Idle, Outside, Synced));
    assert History(root, actions, 0) == actions[..0];
    assert History(root, actions, 1) == actions[..1];
    assert History(root, actions, 2) == actions[..2];
  }

  /*** What is not promised ***/

  /** A drained scope whose reconciliation fails is not put back: the tracker rests in state
      dirty with nothing that covers the scope and nothing owed. */
  lemma FailedScopeIsNotPutBack(root: Path, scope: Path) returns (actions: seq<Action>, k: nat)
    ensures k < |actions| && actions[k] == Drain && scope in Run(root, actions, k).dirty
    ensures actions[|actions| - 1] == Fail
    ensures var m := Run(root, actions, |actions|);
            && m.state == Dirty && !Covers(m.dirty, scope) && !Owed(m)
            && m.collector.Resting? && m.worker.Idle? && m.pass.Outside?
  {
    k := 8;
    actions := [NativeEvent(scope), AddDirty, SetFlag, MarkDirty, Finish, QuietFires, Finish,
                TakeToken, Drain, ClearFlag, Begin(true, true), Fail];
    assert actions[0..4] == [NativeEvent(scope), AddDirty, SetFlag, MarkDirty];
    NotificationIsMarked(root, scope, actions);
    assert actions[4..8] == [Finish, QuietFires, Finish, TakeToken];
    TimerWakesWorker(root, scope, actions);
    assert actions[8..12] == [Drain, ClearFlag, Begin(true, true), Fail];
    DrainedPassFails(root, scope, actions);
  }

  /** The collector adds a scope above `s` in step `i` of the run. */
  ghost predicate AddsAbove(root: Path, actions: seq<Action>, s: Path, i: nat)
    requires i < |actions|
  {
    var m := Run(root, actions, i);
    actions[i].AddDirty? && Do(root, m, actions[i]).Some? && Above(m.collector.scope, s)
  }

  /** The collector adds a scope above `s` in some step from `k` on and before `n`. */
  ghost predicate AddsAboveBetween(root: Path, actions: seq<Action>, s: Path, k: nat, n: nat)
    requires n <= |actions|
  {
    k < n && (AddsAbove(root, actions, s, n - 1) || AddsAboveBetween(root, actions, s, k, n - 1))
  }

  /** A scope that is not covered, such as one whose reconciliation has failed, is covered again
      exactly if the collector has since added it or a scope above it.  Scopes that lie elsewhere
      or below do not bring it back, and nothing else does. */
  lemma {:induction false} RecoveredExactly(root: Path, actions: seq<Action>, s: Path, k: nat, n: nat)
    requires k <= n <= |actions| && !Covers(Run(root, actions, k).dirty, s)
    requires forall i | k <= i < n :: !actions[i].Drain?
    ensures Covers(Run(root, actions, n).dirty, s) <==> AddsAboveBetween(root, actions, s, k, n)
    decreases n
  {
    if n > k {
      RecoveredExactly(root, actions, s, k, n - 1);
      LastStepRecovers(root, actions, s, n);
    }
  }

  lemma LastStepRecovers(root: Path, actions: seq<Action>, s: Path, n: nat)
    requires 0 < n <= |actions| && !actions[n - 1].Drain?
    ensures Covers(Run(root, actions, n).dirty, s) <==>
              Covers(Run(root, actions, n - 1).dirty, s) || AddsAbove(root, actions, s, n - 1)
  {
    var m := Run(root, actions, n - 1);
    if Do(root, m, actions[n - 1]).Some? {
      StepRecovers(root, m, actions[n - 1], s);
    }
  }

  lemma StepRecovers(root: Path, m: Machine, a: Action, s: Path)
    requires Do(root, m, a).Some? && !a.Drain?
    ensures Covers(Do(root, m, a).value.dirty, s) <==>
              Covers(m.dirty, s) || (a.AddDirty? && Above(m.collector.scope, s))
  {
    if a.AddDirty? {
      AbsorbCovers(m.dirty, m.collector.scope, s);
    }
  }

  lemma AbsorbCovers(d: set<Path>, p: Path, s: Path)
    ensures Covers(Absorb(d, p), s) <==> Covers(d, s) || Above(p, s)
  {
    if Covers(d, p) {
      var q :| q in d && Above(q, p);
      if Above(p, s) {
        AboveTransitive(q, p, s);
      }
    } else {
      assert p in Absorb(d, p);
      if q :| q in d && Above(q, s) {
        if Above(p, q) {
          AboveTransitive(p, q, s);
        } else {
          assert q in Absorb(d, p);
        }
      }
    }
  }

  /** A machine with the given dirty set, healthy and open. */
  function Open(dirty: set<Path>, flag: bool, token: bool, armed: bool, collector: Collector, worker: Worker,
                pass: Pass, state: TrackerState): Machine
  {
    Machine(dirty, flag, token, armed, collector, worker, pass, state, false, true)
  }

  /** The collector handles a notification. */
  lemma NotificationIsMarked(root: Path, scope: Path, actions: seq<Action>)
    requires |actions| == 12
    requires actions[0..4] == [NativeEvent(scope), AddDirty, SetFlag, MarkDirty]
    ensures Run(root, actions, 4) == Open({scope}, true, false, false, Finishing(Arm), Idle, Outside, Dirty)
  {
    assert actions[0] == actions[0..4][0];
    assert actions[1] == actions[0..4][1];
    assert actions[2] == actions[0..4][2];
    assert actions[3] == actions[0..4][3];
    assert Absorb({}, scope) == {scope};
    Reaches(root, actions, 0, Open({}, false, false, false, Adding(scope, Arm), Idle, Outside, Syncing));
    Reaches(root, actions, 1, Open({scope}, false, false, false, Flagging(Arm), Idle, Outside, Syncing));
    Reaches(root, actions, 2, Open({scope}, true, false, false, Marking(Arm), Idle, Outside, Syncing));
    Reaches(root, actions, 3, Open({scope}, true, false, false, Finishing(Arm), Idle, Outside, Dirty));
  }

  /** The debounce timer fires and the worker takes the token. */
  lemma TimerWakesWorker(root: Path, scope: Path, actions: seq<Action>)
    requires |actions| == 12
    requires Run(root, actions, 4) == Open({scope}, true, false, false, Finishing(Arm), Idle, Outside, Dirty)
    requires actions[4..8] == [Finish, QuietFires, Finish, TakeToken]
    ensures Run(root, actions, 8) == Open({scope}, true, false, false, Resting, Taken, Outside, Dirty)
  {
    assert actions[4] == actions[4..8][0];
    assert actions[5] == actions[4..8][1];
    assert actions[6] == actions[4..8][2];
    assert actions[7] == actions[4..8][3];
    Reaches(root, actions, 4, Open({scope}, true, false, true, Resting, Idle, Outside, Dirty));
    Reaches(root, actions, 5, Open({scope}, true, false, false, Finishing(Wake), Idle, Outside, Dirty));
    Reaches(root, actions, 6, Open({scope}, true, true, false, Resting, Idle, Outside, Dirty));
    Reaches(root, actions, 7, Open({scope}, true, false, false, Resting, Taken, Outside, Dirty));
  }

  /** The worker drains the set and its reconciliation fails. */
  lemma DrainedPassFails(root: Path, scope: Path, actions: seq<Action>)
    requires |actions| == 12
    requires Run(root, actions, 8) == Open({scope}, true, false, false, Resting, Taken, Outside, Dirty)
    requires actions[8..12] == [Drain, ClearFlag, Begin(true, true), Fail]
    ensures Run(root, actions, 12) == Open({}, false, false, false, Resting, Idle, Outside, Dirty)
  {
    assert actions[8] == actions[8..12][0];
    assert actions[9] == actions[8..12][1];
    assert actions[10] == actions[8..12][2];
    assert actions[11] == actions[8..12][3];
    Reaches(root, actions, 8, Open({}, true, false, false, Resting, Draining(true), Outside, Dirty));
    Reaches(root, actions, 9, Open({}, false, false, false, Resting, Waiting, Outside, Dirty));
    Reaches(root, actions, 10, Open({}, false, false, false, Resting, Waiting, Inside(true, true), Reconciling));
    Reaches(root, actions, 11, Open({}, false, false, false, Resting, Idle, Outside, Dirty));
  }

  lemma Reaches(root: Path, actions: seq<Action>, n: nat, m: Machine)
    requires n < |actions| && Do(root, Run(root, actions, n), actions[n]) == Some(m)
    ensures Run(root, actions, n + 1) == m
  {}
}
