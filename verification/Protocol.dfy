/** The authoritative delivery protocol: at most one pending generation, frozen when it is
    computed, delivered at least once, committed only after delivery. */
module Protocol {
  import opened Paths
  import opened Sorting
  import opened Entries
  import opened Diff
  import opened Delivery
  import opened Scopes

  /** What is fixed for the lifetime of a tracker.  `eligible` tells which unlisted entries
      count as orphans. */
  datatype Config = Config(root: Path, session: string, limit: nat, hasSink: bool, eligible: Meta -> bool,
                           answers: Answers)
  {
    ghost predicate Valid() {
      limit >= 1
    }
  }

  datatype Kind = ReconcileKind | IntegrityKind

  /** A generation whose delivery or commit is not finished. */
  datatype Pending = Pending(kind: Kind, generation: nat, events: seq<Event>, puts: Tree, deletes: set<Path>)

  /** Everything the protocol keeps: the snapshot, the last committed generation, the
      pending one, and the calls made to the sink. */
  datatype State = State(store: Tree, generation: nat, pending: Option<Pending>, log: seq<Attempt>)

  /** What one look at the world found: the disk, the expected entries, the policy events. */
  datatype Scan = Scan(disk: Tree, expected: Option<Manifest>, policy: seq<Event>)

  /** How the store reacts to a batch of writes; a failing store may have carried out any of them. */
  datatype Write = Written | Torn(done: set<Path>)

  /** Calls of the program with everything that the environment decides.  A missing scan is
      one that failed.  `readable` is the number of staged events that can be read back
      before reading the log of a scrub fails. */
  datatype Call =
    | Reconcile(requested: seq<Path>, scan: Option<Scan>, write: Write)
    | Scrub(found: Option<seq<Event>>, readable: Option<nat>, write: Write)

  /*** Specification, step by step ***/

  function Writes(store: Tree, puts: Tree, deletes: set<Path>): Tree {
    (store - deletes) + puts
  }

  /** Carries out the writes at the paths in `done` only. */
  function WritesAt(store: Tree, puts: Tree, deletes: set<Path>, done: set<Path>): Tree {
    (store - (deletes * done)) + (map p | p in puts && p in done :: puts[p])
  }

  ghost function BatchesOf(c: Config, p: Pending): seq<Batch>
    requires c.Valid()
  {
    Batches(c.session, p.generation, p.events, c.limit, 0)
  }

  /** Delivers and commits the pending generation; whatever fails leaves it pending. */
  ghost function Complete(c: Config, s: State, write: Write): (State, bool)
    requires c.Valid() && s.pending.Some?
  {
    var p := s.pending.value;
    var (log, ok) := Deliver(BatchesOf(c, p), s.log, c.answers);
    if !ok then (s.(log := log), false)
    else if write.Torn? && p.kind.ReconcileKind? then
      (s.(log := log, store := WritesAt(s.store, p.puts, p.deletes, write.done)), false)
    else
      (State(Writes(s.store, p.puts, p.deletes), p.generation, None, log), true)
  }

  /** What a reconciliation of `scopes` freezes: the events and the writes of its generation. */
  ghost function Freeze(c: Config, s: State, scopes: seq<Path>, scan: Scan): Pending {
    var previous, puts := Previous(s.store, scan.disk, scopes), Actual(scan.disk, scopes);
    Pending(ReconcileKind, s.generation + 1,
            Structure(previous, puts) + Judgement(puts, scan.expected, c.eligible) + scan.policy,
            puts, previous.Keys - puts.Keys)
  }

  /** A reconciliation from scratch. */
  ghost function Fresh(c: Config, s: State, requested: seq<Path>, scan: Option<Scan>, write: Write): (State, bool)
    requires c.Valid() && s.pending.None?
  {
    var scopes := Collapse(c.root, requested, |requested|);
    if scopes == [] then (s.(generation := s.generation + 1), true)
    else if scan.None? then (s, false)
    else
      var p := Freeze(c, s, scopes, scan.value);
      if c.hasSink then
        Complete(c, s.(pending := Some(p)), write)
      else if write.Torn? then
        (s.(store := WritesAt(s.store, p.puts, p.deletes, write.done)), false)
      else
        (s.(store := Writes(s.store, p.puts, p.deletes), generation := p.generation), true)
  }

  ghost function FreezeScrub(s: State, found: seq<Event>): Pending {
    Pending(IntegrityKind, s.generation + 1, found, map[], {})
  }

  /** A content check from scratch.  If the staged log cannot be read back, the check ends
      without leaving a pending generation. */
  ghost function FreshScrub(c: Config, s: State, found: Option<seq<Event>>, readable: Option<nat>): (State, bool)
    requires c.Valid() && s.pending.None?
  {
    if found.None? then (s, false)
    else if !c.hasSink then (s.(generation := s.generation + 1), true)
    else
      var p := FreezeScrub(s, found.value);
      var (log, ok) := Deliver(ScrubBatches(c, p, readable), s.log, c.answers);
      if !ok then (s.(pending := Some(p), log := log), false)
      else if readable.Some? then (s.(log := log), false)
      else (s.(generation := p.generation, log := log), true)
  }

  /** The events read back before the log ends or fails. */
  function ReadBack(events: seq<Event>, readable: Option<nat>): seq<Event> {
    if readable.Some? && readable.value < |events| then events[..readable.value] else events
  }

  ghost function ScrubBatches(c: Config, p: Pending, readable: Option<nat>): seq<Batch>
    requires c.Valid()
  {
    Sent(Batches(c.session, p.generation, ReadBack(p.events, readable), c.limit, 0), readable.None?)
  }

  /** A call: finish what is pending; a call of the other kind then goes on with its own work. */
  ghost function Do(c: Config, s: State, call: Call): State
    requires c.Valid()
  {
    match call
    case Reconcile(requested, scan, write) =>
      if s.pending.None? then
        Fresh(c, s, requested, scan, write).0
      else
        var (s', ok) := Complete(c, s, write);
        if ok && s.pending.value.kind.IntegrityKind? then Fresh(c, s', requested, scan, write).0 else s'
    case Scrub(found, readable, write) =>
      if s.pending.None? then
        FreshScrub(c, s, found, readable).0
      else
        var (s', ok) := Complete(c, s, write);
        if ok && s.pending.value.kind.ReconcileKind? then FreshScrub(c, s', found, readable).0 else s'
  }

  /** Whether the call reports success. */
  ghost predicate Answer(c: Config, s: State, call: Call)
    requires c.Valid()
  {
    match call
    case Reconcile(requested, scan, write) =>
      if s.pending.None? then
        Fresh(c, s, requested, scan, write).1
      else
        var (s', ok) := Complete(c, s, write);
        if ok && s.pending.value.kind.IntegrityKind? then Fresh(c, s', requested, scan, write).1 else ok
    case Scrub(found, readable, write) =>
      if s.pending.None? then
        FreshScrub(c, s, found, readable).1
      else
        var (s', ok) := Complete(c, s, write);
        if ok && s.pending.value.kind.ReconcileKind? then FreshScrub(c, s', found, readable).1 else ok
  }

  /** The state after the first `n` calls. */
  ghost function Run(c: Config, s: State, calls: seq<Call>, n: nat): State
    requires c.Valid() && n <= |calls|
  {
    if n == 0 then s else Do(c, Run(c, s, calls, n - 1), calls[n - 1])
  }

  /** The predicate holds in every state of the run up to the one after `n` calls. */
  ghost predicate AllAlong(c: Config, s: State, calls: seq<Call>, n: nat, inv: State -> bool)
    requires c.Valid() && n <= |calls|
  {
    inv(Run(c, s, calls, n)) && (n > 0 ==> AllAlong(c, s, calls, n - 1, inv))
  }

  /** The state in which a call starts its own work, if nothing is pending then. */
  ghost function Resumed(c: Config, s: State, call: Call): State
    requires c.Valid()
  {
    if s.pending.Some? then Complete(c, s, call.write).0 else s
  }

  /** Whether a call gets to its own work: nothing is pending any more, and what was pending, if
      anything, was of the other kind. */
  ghost predicate GetsToOwnWork(c: Config, s: State, call: Call)
    requires c.Valid()
  {
    && Resumed(c, s, call).pending.None?
    && (s.pending.Some? ==> (s.pending.value.kind.IntegrityKind? <==> call.Reconcile?))
  }

  /** A call finishes what is pending and then does its own work as if called afterwards. */
  lemma CallIsTwoSteps(c: Config, s: State, call: Call)
    requires c.Valid()
    ensures var s1 := Resumed(c, s, call);
            if GetsToOwnWork(c, s, call) then
              s1.pending.None? && Do(c, s, call) == Do(c, s1, call) && Answer(c, s, call) == Answer(c, s1, call)
            else
              Do(c, s, call) == s1 && (Answer(c, s, call) <==> s1.pending.None?)
  {}

  /** The call is a scrub that, at its own work, loses its staged log after sending something of
      it, and the sink accepts all that was sent: nothing is left pending. */
  ghost predicate Leaks(c: Config, s: State, call: Call)
    requires c.Valid()
  {
    && c.hasSink && LosesLog(c, call) && GetsToOwnWork(c, s, call)
    && var s1 := Resumed(c, s, call);
       Deliver(ScrubBatches(c, FreezeScrub(s1, call.found.value), call.readable), s1.log, c.answers).1
  }

  /** None of the first `n` calls leaks. */
  ghost predicate Tight(c: Config, s: State, calls: seq<Call>, n: nat)
    requires c.Valid() && n <= |calls|
  {
    n > 0 ==> !Leaks(c, Run(c, s, calls, n - 1), calls[n - 1]) && Tight(c, s, calls, n - 1)
  }

  /** What call number `i` keeps exactly if it does not leak. */
  ghost predicate KeptUnlessLeak(c: Config, s: State, calls: seq<Call>, i: nat, inv: State -> bool)
    requires c.Valid() && i < |calls|
  {
    var t := Run(c, s, calls, i);
    inv(t) ==> (inv(Run(c, s, calls, i + 1)) <==> !Leaks(c, t, calls[i]))
  }

  lemma {:induction false} TightExactly(c: Config, s: State, calls: seq<Call>, n: nat, inv: State -> bool)
    requires c.Valid() && n <= |calls| && inv(s)
    requires forall i | 0 <= i < n :: KeptUnlessLeak(c, s, calls, i, inv)
    ensures Tight(c, s, calls, n) <==> AllAlong(c, s, calls, n, inv)
  {
    if n > 0 {
      TightExactly(c, s, calls, n - 1, inv);
      assert KeptUnlessLeak(c, s, calls, n - 1, inv);
      assert AllAlong(c, s, calls, n - 1, inv) ==> inv(Run(c, s, calls, n - 1));
    }
  }

  /** The log of the scrub cannot be read back to its end, but more of it than fits into one batch. */
  predicate LosesLog(c: Config, call: Call) {
    && call.Scrub? && call.found.Some? && call.readable.Some?
    && |ReadBack(call.found.value, call.readable)| > c.limit
  }

  /*** A consumer behind the sink ***/

  /** A consumer keeps each batch identity once and applies the events to its own view. */
  datatype Consumer = Consumer(view: View, seen: set<(nat, nat)>)

  function Receive(k: Consumer, a: Attempt): Consumer {
    var key := (a.batch.generation, a.batch.sequence);
    if a.outcome.FailedUnseen? || key in k.seen then k
    else Consumer(Replay(k.view, a.batch.events), k.seen + {key})
  }

  function Consumed(start: View, log: seq<Attempt>): Consumer {
    if log == [] then Consumer(start, {}) else
      Receive(Consumed(start, log[..|log| - 1]), log[|log| - 1])
  }

  /** The consumer has taken the first `m` batches of the generation `g`, and the others
      will bring it to `target`. */
  ghost predicate Progress(k: Consumer, bs: seq<Batch>, g: nat, m: nat, target: View) {
    && m <= |bs|
    && (forall key | key in k.seen :: key.0 < g || (key.0 == g && key.1 < m))
    && (forall q | 0 <= q < m :: (g, q) in k.seen)
    && Replay(k.view, Flatten(bs[m..])) == target
  }

  ghost predicate Numbered(bs: seq<Batch>, g: nat) {
    forall k | 0 <= k < |bs| :: bs[k].generation == g && bs[k].sequence == k
  }

  lemma ProgressStep(k: Consumer, bs: seq<Batch>, g: nat, m: nat, target: View, j: nat, outcome: Outcome)
    returns (m': nat)
    requires Numbered(bs, g) && j < |bs| && j <= m && Progress(k, bs, g, m, target)
    ensures m <= m' <= m + 1 && Progress(Receive(k, Attempt(bs[j], outcome)), bs, g, m', target)
    ensures outcome.Accepted? ==> j < m'
  {
    m' := m;
    if j == m && !outcome.FailedUnseen? {
      m' := m + 1;
      assert bs[m..][1..] == bs[m + 1..];
      ReplayConcat(k.view, bs[m].events, Flatten(bs[m + 1..]));
    }
  }

  /** However often the sink fails, every delivery takes the consumer further or leaves it
      where it was, and a successful one takes it through the whole generation. */
  lemma {:induction false} DeliverProgress(start: View, bs: seq<Batch>, g: nat, m: nat, target: View, j: nat,
                                           log: seq<Attempt>, answers: Answers) returns (m': nat)
    requires Numbered(bs, g) && j <= m
    requires Progress(Consumed(start, log), bs, g, m, target)
    ensures m <= m' && Progress(Consumed(start, Deliver(bs[j..], log, answers).0), bs, g, m', target)
    ensures Deliver(bs[j..], log, answers).1 ==> m' == |bs|
    decreases |bs| - j
  {
    m' := m;
    if j < |bs| {
      var a := Attempt(bs[j], answers(|log|));
      assert bs[j..][1..] == bs[j + 1..];
      assert (log + [a])[..|log|] == log;
      m' := ProgressStep(Consumed(start, log), bs, g, m, target, j, a.outcome);
      if a.outcome.Accepted? {
        m' := DeliverProgress(start, bs, g, m', target, j + 1, log + [a], answers);
      }
    }
  }

  /** The consumer's view in every state: settled when nothing is pending, on its way otherwise. */
  ghost predicate Agrees(c: Config, start: View, s: State)
    requires c.Valid()
  {
    var k := Consumed(start, s.log);
    match s.pending
    case None =>
      k.view == ViewOf(s.store) && forall key | key in k.seen :: key.0 <= s.generation
    case Some(p) =>
      && p.generation == s.generation + 1
      && (p.kind.IntegrityKind? ==> p.puts == map[] && p.deletes == {})
      && exists m :: Progress(k, BatchesOf(c, p), p.generation, m, ViewOf(Writes(s.store, p.puts, p.deletes)))
  }

  lemma NumberedBatches(c: Config, p: Pending)
    requires c.Valid()
    ensures Numbered(BatchesOf(c, p), p.generation) && Flatten(BatchesOf(c, p)) == p.events
  {
    BatchesAreExact(c.session, p.generation, p.events, c.limit, 0);
  }

  /** Writing again after a torn write gives what an untorn write would have given. */
  lemma WritesAfterTorn(store: Tree, puts: Tree, deletes: set<Path>, done: set<Path>)
    ensures Writes(WritesAt(store, puts, deletes, done), puts, deletes) == Writes(store, puts, deletes)
  {}

  /** A torn write has been carried out at the given paths and nowhere else. */
  lemma TornExactly(store: Tree, puts: Tree, deletes: set<Path>, done: set<Path>, p: Path)
    ensures At(WritesAt(store, puts, deletes, done), p) ==
              if p in done then At(Writes(store, puts, deletes), p) else At(store, p)
  {}

  lemma CompleteAgrees(c: Config, start: View, s: State, write: Write)
    requires c.Valid() && s.pending.Some? && Agrees(c, start, s)
    ensures Agrees(c, start, Complete(c, s, write).0)
    ensures Complete(c, s, write).1 ==> Complete(c, s, write).0.pending.None?
  {
    var p := s.pending.value;
    var target := ViewOf(Writes(s.store, p.puts, p.deletes));
    var m := DeliveryAgrees(c, start, s);
    var (s', ok) := Complete(c, s, write);
    if write.Torn? {
      WritesAfterTorn(s.store, p.puts, p.deletes, write.done);
    }
    assert !ok ==> Progress(Consumed(start, s'.log), BatchesOf(c, p), p.generation, m, target);
  }

  /** Where one delivery of the pending generation leaves the consumer. */
  lemma DeliveryAgrees(c: Config, start: View, s: State) returns (m: nat)
    requires c.Valid() && s.pending.Some? && Agrees(c, start, s)
    ensures var p := s.pending.value;
            var (log, ok) := Deliver(BatchesOf(c, p), s.log, c.answers);
            var (k, target) := (Consumed(start, log), ViewOf(Writes(s.store, p.puts, p.deletes)));
            && Progress(k, BatchesOf(c, p), p.generation, m, target)
            && (ok ==> k.view == target && forall key | key in k.seen :: key.0 <= p.generation)
  {
    var p := s.pending.value;
    var bs, target := BatchesOf(c, p), ViewOf(Writes(s.store, p.puts, p.deletes));
    NumberedBatches(c, p);
    var m0 :| Progress(Consumed(start, s.log), bs, p.generation, m0, target);
    m := DeliverProgress(start, bs, p.generation, m0, target, 0, s.log, c.answers);
    assert bs[0..] == bs && bs[|bs|..] == [];
  }

  /*** What a fresh reconciliation freezes ***/

  lemma NothingStructuralPicked(xs: seq<Path>, f: Path -> Option<Event>)
    requires forall x | f(x).Some? :: !f(x).value.Structural()
    ensures forall e | e in Picks(xs, f) :: !e.Structural()
  {
    forall e | e in Picks(xs, f)
      ensures !e.Structural()
    {
      InPicks(xs, f, e);
    }
  }

  lemma JudgementIsNotStructural(actual: Tree, expected: Option<Manifest>, eligible: Meta -> bool)
    ensures forall e | e in Judgement(actual, expected, eligible) :: !e.Structural()
  {
    if expected.Some? {
      var manifest := expected.value;
      NothingStructuralPicked(SortedPaths(manifest.Keys), ExpectedOf(manifest, actual));
      NothingStructuralPicked(SortedPaths(actual.Keys), OrphanOf(manifest, actual, eligible));
    }
  }

  /** The frozen events lead a consumer of the old snapshot to the snapshot to be written. */
  lemma FrozenEventsReachWrites(c: Config, s: State, requested: seq<Path>, scan: Scan)
    requires forall e | e in scan.policy :: !e.Structural()
    ensures var p := Freeze(c, s, Collapse(c.root, requested, |requested|), scan);
            Replay(ViewOf(s.store), p.events) == ViewOf(Writes(s.store, p.puts, p.deletes))
  {
    var scopes, store := Collapse(c.root, requested, |requested|), s.store;
    var previous, puts := Previous(store, scan.disk, scopes), Actual(scan.disk, scopes);
    var judged := Judgement(puts, scan.expected, c.eligible);
    var events := Structure(previous, puts) + judged + scan.policy;
    JudgementIsNotStructural(puts, scan.expected, c.eligible);
    forall e: Event | e.Structural()
      ensures e in events <==> Describes(previous, puts, e)
    {
      StructureIsExact(previous, puts, e);
    }
    CollapseIsTop(c.root, requested, |requested|);
    ScannedWasStored(store, scan.disk, scopes, Clamped(c.root, requested, |requested|));
    ReplayReachesCommit(store, previous, puts, events);
  }

  /** Whatever is scanned and was stored takes part in the comparison. */
  lemma ScannedWasStored(store: Tree, disk: Tree, scopes: seq<Path>, s: set<Path>)
    requires Elements(scopes) == Top(s)
    ensures forall p | p in Actual(disk, scopes) && p in store :: p in Previous(store, disk, scopes)
  {
    forall p | p in Actual(disk, scopes) && p in store
      ensures p in Previous(store, disk, scopes)
    {
      var q :| q in scopes && Scans(disk, q, p);
      assert Above(q, p);
      assert q in Elements(scopes);
      assert p in scopes ==> p in Elements(scopes);
    }
  }

  lemma {:induction false} ReplayWithoutStructure(v: View, es: seq<Event>)
    requires forall e | e in es :: !e.Structural()
    ensures Replay(v, es) == v
    decreases |es|
  {
    if es != [] {
      assert es[0] in es;
      ReplayWithoutStructure(v, es[1..]);
    }
  }

  lemma StartProgress(c: Config, start: View, s: State, p: Pending)
    requires c.Valid() && s.pending.None? && Agrees(c, start, s)
    requires p.generation == s.generation + 1
    requires Replay(ViewOf(s.store), p.events) == ViewOf(Writes(s.store, p.puts, p.deletes))
    requires p.kind.IntegrityKind? ==> p.puts == map[] && p.deletes == {}
    ensures Agrees(c, start, s.(pending := Some(p)))
    ensures Progress(Consumed(start, s.log), BatchesOf(c, p), p.generation, 0,
                     ViewOf(Writes(s.store, p.puts, p.deletes)))
  {
    NumberedBatches(c, p);
    var bs, target := BatchesOf(c, p), ViewOf(Writes(s.store, p.puts, p.deletes));
    assert bs[0..] == bs;
    assert Progress(Consumed(start, s.log), bs, p.generation, 0, target);
  }

  lemma FreshAgrees(c: Config, start: View, s: State, requested: seq<Path>, scan: Option<Scan>, write: Write)
    requires c.Valid() && c.hasSink && s.pending.None? && Agrees(c, start, s)
    requires scan.Some? ==> forall e | e in scan.value.policy :: !e.Structural()
    ensures Agrees(c, start, Fresh(c, s, requested, scan, write).0)
  {
    var scopes := Collapse(c.root, requested, |requested|);
    if scopes != [] && scan.Some? {
      var p := Freeze(c, s, scopes, scan.value);
      FrozenEventsReachWrites(c, s, requested, scan.value);
      StartProgress(c, start, s, p);
      CompleteAgrees(c, start, s.(pending := Some(p)), write);
    }
  }

  lemma ScrubBatchesArePrefix(c: Config, p: Pending, readable: Option<nat>)
    requires c.Valid()
    ensures ScrubBatches(c, p, readable) <= BatchesOf(c, p)
    ensures readable.None? ==> ScrubBatches(c, p, readable) == BatchesOf(c, p)
    ensures readable.Some? ==> (ScrubBatches(c, p, readable) == [] <==> |ReadBack(p.events, readable)| <= c.limit)
  {
    if readable.Some? {
      var read := ReadBack(p.events, readable);
      assert p.events[..|read|] == read;
      EarlyBatches(c.session, p.generation, p.events, |read|, c.limit, 0);
    }
  }

  lemma FreshScrubAgrees(c: Config, start: View, s: State, found: Option<seq<Event>>, readable: Option<nat>)
    requires c.Valid() && c.hasSink && s.pending.None? && Agrees(c, start, s)
    requires found.Some? ==> forall e | e in found.value :: !e.Structural()
    requires found.Some? && readable.Some? ==>
               !Deliver(ScrubBatches(c, FreezeScrub(s, found.value), readable), s.log, c.answers).1
               || |ReadBack(found.value, readable)| <= c.limit
    ensures Agrees(c, start, FreshScrub(c, s, found, readable).0)
  {
    if found.Some? {
      var p := FreezeScrub(s, found.value);
      ScrubBatchesArePrefix(c, p, readable);
      ScrubProgress(c, start, s, p, ScrubBatches(c, p, readable));
      assert Writes(s.store, map[], {}) == s.store;
    }
  }

  /** What is sent of a scrub leaves the consumer on its way to the same view. */
  lemma ScrubProgress(c: Config, start: View, s: State, p: Pending, sent: seq<Batch>)
    requires c.Valid() && s.pending.None? && Agrees(c, start, s)
    requires p == FreezeScrub(s, p.events) && forall e | e in p.events :: !e.Structural()
    requires sent <= BatchesOf(c, p)
    ensures var (log, ok) := Deliver(sent, s.log, c.answers);
            var k := Consumed(start, log);
            && k.view == ViewOf(s.store)
            && (exists m :: Progress(k, BatchesOf(c, p), p.generation, m, ViewOf(s.store)))
            && (forall key | key in k.seen :: key.0 <= p.generation)
            && (ok && sent != [] ==> (p.generation, 0) in k.seen)
  {
    var bs, target := BatchesOf(c, p), ViewOf(s.store);
    NumberedBatches(c, p);
    ReplayWithoutStructure(target, p.events);
    assert bs[0..] == bs;
    var m := QuietProgress(start, bs, p.generation, target, sent, 0, s.log, c.answers);
  }

  /** Batches without structural events take the consumer further without changing its view. */
  lemma {:induction false} QuietProgress(start: View, bs: seq<Batch>, g: nat, target: View, sent: seq<Batch>, j: nat,
                                         log: seq<Attempt>, answers: Answers) returns (m: nat)
    requires Numbered(bs, g) && j <= |sent| && sent <= bs
    requires forall e | e in Flatten(bs) :: !e.Structural()
    requires Progress(Consumed(start, log), bs, g, j, target) && Consumed(start, log).view == target
    ensures var (log', ok) := Deliver(sent[j..], log, answers);
            && Progress(Consumed(start, log'), bs, g, m, target) && Consumed(start, log').view == target
            && j <= m && (ok ==> m >= |sent|)
    decreases |sent| - j
  {
    m := j;
    if j < |sent| {
      var a := Attempt(bs[j], answers(|log|));
      assert sent[j..][1..] == sent[j + 1..];
      assert (log + [a])[..|log|] == log;
      m := ProgressStep(Consumed(start, log), bs, g, j, target, j, a.outcome);
      InFlatten(bs, j);
      ReplayWithoutStructure(target, bs[j].events);
      if a.outcome.Accepted? {
        m := QuietProgress(start, bs, g, target, sent, j + 1, log + [a], answers);
      }
    }
  }

  lemma {:induction false} InFlatten(bs: seq<Batch>, j: nat)
    requires j < |bs|
    ensures forall e | e in bs[j].events :: e in Flatten(bs)
  {
    if j > 0 {
      InFlatten(bs[1..], j - 1);
    }
  }

  /** Policy and integrity events describe no structural change. */
  ghost predicate Orderly(call: Call) {
    match call
    case Reconcile(_, scan, _) => scan.Some? ==> forall e | e in scan.value.policy :: !e.Structural()
    case Scrub(found, _, _) => found.Some? ==> forall e | e in found.value :: !e.Structural()
  }

  lemma ResumedAgrees(c: Config, start: View, s: State, call: Call)
    requires c.Valid() && c.hasSink && Agrees(c, start, s)
    ensures Agrees(c, start, Resumed(c, s, call))
  {
    if s.pending.Some? {
      CompleteAgrees(c, start, s, call.write);
    }
  }

  /** A call keeps consumer and tracker consistent exactly if it does not leak. */
  lemma DoAgrees(c: Config, start: View, s: State, call: Call)
    requires c.Valid() && c.hasSink && Agrees(c, start, s) && Orderly(call)
    ensures Agrees(c, start, Do(c, s, call)) <==> !Leaks(c, s, call)
  {
    var s1 := Resumed(c, s, call);
    ResumedAgrees(c, start, s, call);
    CallIsTwoSteps(c, s, call);
    if GetsToOwnWork(c, s, call) {
      match call
      case Reconcile(requested, scan, write) => FreshAgrees(c, start, s1, requested, scan, write);
      case Scrub(found, readable, _) =>
        if Leaks(c, s, call) {
          LeakIsSeen(c, start, s, call);
        } else {
          FreshScrubAgrees(c, start, s1, found, readable);
        }
    }
  }

  /** What a leak leaves behind: the consumer's view is right, but it has seen a batch of a
      generation that is neither committed nor pending. */
  lemma LeakIsSeen(c: Config, start: View, s: State, call: Call)
    requires c.Valid() && c.hasSink && Agrees(c, start, s) && Orderly(call) && Leaks(c, s, call)
    ensures var s', k := Do(c, s, call), Consumed(start, Do(c, s, call).log);
            s'.pending.None? && k.view == ViewOf(s'.store) && (s'.generation + 1, 0) in k.seen
  {
    var s1 := Resumed(c, s, call);
    ResumedAgrees(c, start, s, call);
    CallIsTwoSteps(c, s, call);
    var p := FreezeScrub(s1, call.found.value);
    ScrubBatchesArePrefix(c, p, call.readable);
    ScrubProgress(c, start, s1, p, ScrubBatches(c, p, call.readable));
  }

  /** In every state of a run the consumer has caught up, or some of the pending batches will
      make it catch up, exactly if no call of the run leaks. */
  lemma RunAgrees(c: Config, s: State, calls: seq<Call>, n: nat)
    requires c.Valid() && c.hasSink && s.pending.None? && s.log == [] && n <= |calls|
    requires forall i | 0 <= i < n :: Orderly(calls[i])
    ensures Tight(c, s, calls, n) <==> AllAlong(c, s, calls, n, Agreeing(c, ViewOf(s.store)))
  {
    var start := ViewOf(s.store);
    forall i | 0 <= i < n
      ensures KeptUnlessLeak(c, s, calls, i, Agreeing(c, start))
    {
      var t := Run(c, s, calls, i);
      if Agrees(c, start, t) {
        DoAgrees(c, start, t, calls[i]);
      }
    }
    TightExactly(c, s, calls, n, Agreeing(c, start));
  }

  ghost function Agreeing(c: Config, start: View): State -> bool {
    s => c.Valid() && Agrees(c, start, s)
  }

  /** For every run in which no scrub leaks, whatever the sink refuses and however writes are
      torn: a consumer that started from the same view agrees with the snapshot whenever nothing
      is pending. */
  lemma ConsumerAgrees(c: Config, s: State, calls: seq<Call>, n: nat)
    requires c.Valid() && c.hasSink && s.pending.None? && s.log == [] && n <= |calls|
    requires forall i | 0 <= i < n :: Orderly(calls[i])
    requires Tight(c, s, calls, n)
    ensures var end := Run(c, s, calls, n);
            end.pending.None? ==> Consumed(ViewOf(s.store), end.log).view == ViewOf(end.store)
  {
    RunAgrees(c, s, calls, n);
  }

  /*** What a leak does to the consumer ***/

  /** If the call leaves nothing pending, consumer and snapshot agree. */
  ghost predicate AgreesAfter(c: Config, start: View, s: State, call: Call, answers: Answers)
    requires c.Valid()
  {
    var s' := Do(c.(answers := answers), s, call);
    s'.pending.None? ==> Consumed(start, s'.log).view == ViewOf(s'.store)
  }

  /** After a call, consumer and snapshot agree after every next call that leaves nothing pending,
      whatever the sink answers, exactly if the call did not leak. */
  lemma AgreementSurvivesExactly(c: Config, start: View, s: State, call: Call)
    requires c.Valid() && c.hasSink && Agrees(c, start, s) && Orderly(call)
    ensures (forall next, answers | Orderly(next) :: AgreesAfter(c, start, Do(c, s, call), next, answers)) <==>
              !Leaks(c, s, call)
  {
    var s1 := Do(c, s, call);
    DoAgrees(c, start, s, call);
    if Leaks(c, s, call) {
      LeakIsSeen(c, start, s, call);
      var accept: Answers := n => Accepted;
      var next := SkippedBatchMisleads(c.(answers := accept), start, s1);
      assert !AgreesAfter(c, start, s1, next, accept);
    } else {
      forall next, answers | Orderly(next)
        ensures AgreesAfter(c, start, s1, next, answers)
      {
        AgreesWhateverTheAnswers(c, answers, start, s1);
        NextCallAgrees(c.(answers := answers), start, s1, next);
      }
    }
  }

  lemma AgreesWhateverTheAnswers(c: Config, answers: Answers, start: View, s: State)
    requires c.Valid() && Agrees(c, start, s)
    ensures Agrees(c.(answers := answers), start, s)
  {
    if s.pending.Some? {
      assert BatchesOf(c.(answers := answers), s.pending.value) == BatchesOf(c, s.pending.value);
    }
  }

  /** From a consistent state, even a call that leaks leaves the view right for the moment. */
  lemma NextCallAgrees(c: Config, start: View, s: State, call: Call)
    requires c.Valid() && c.hasSink && Agrees(c, start, s) && Orderly(call)
    ensures Do(c, s, call).pending.None? ==>
              Consumed(start, Do(c, s, call).log).view == ViewOf(Do(c, s, call).store)
  {
    DoAgrees(c, start, s, call);
    if Leaks(c, s, call) {
      LeakIsSeen(c, start, s, call);
    }
  }

  /** A consumer that has already seen the first batch of the next generation drops it: one file
      that appears or disappears is then committed without its knowledge. */
  lemma SkippedBatchMisleads(c: Config, start: View, s: State) returns (next: Call)
    requires c.Valid() && c.hasSink && s.pending.None? && c.answers(|s.log|).Accepted?
    requires Consumed(start, s.log).view == ViewOf(s.store) && (s.generation + 1, 0) in Consumed(start, s.log).seen
    ensures Orderly(next)
    ensures var s' := Do(c, s, next);
            s'.pending.None? && Consumed(start, s'.log).view != ViewOf(s'.store)
  {
    var disk, w, e, p := OneFilePass(c, s);
    next := RootPass(c, disk);
    DroppedGeneration(c, start, s, w, e, p);
  }

  /** From every state with nothing pending, some pass has exactly one event to report. */
  lemma OneFilePass(c: Config, s: State) returns (disk: Tree, w: Pending, e: Event, p: Path)
    requires c.Valid() && c.hasSink && s.pending.None?
    ensures Do(c, s, RootPass(c, disk)) == Complete(c, s.(pending := Some(w)), Written).0
    ensures w.generation == s.generation + 1 && w.events == [e]
    ensures (p in Writes(s.store, w.puts, w.deletes)) != (p in s.store)
  {
    p, disk := c.root + ["a"], Toggled(c.root, s.store);
    w := RootWork(c, s, disk);
    PassOfRoot(c, s, disk);
    e := ToggledWork(c, s);
  }

  lemma ToggledWork(c: Config, s: State) returns (e: Event)
    ensures var p, w := c.root + ["a"], RootWork(c, s, Toggled(c.root, s.store));
            w.events == [e] && (p in Writes(s.store, w.puts, w.deletes) <==> p !in s.store)
  {
    var p, disk := c.root + ["a"], Toggled(c.root, s.store);
    ToggledDiffers(c.root, s.store);
    e := OneDifference(Previous(s.store, disk, [c.root]), Actual(disk, [c.root]), p);
  }

  /** What a reconciliation of the root from `disk` is called with. */
  function RootPass(c: Config, disk: Tree): Call {
    Reconcile([c.root], Some(Scan(disk, None, [])), Written)
  }

  /** What it freezes. */
  ghost function RootWork(c: Config, s: State, disk: Tree): Pending {
    var previous, puts := Previous(s.store, disk, [c.root]), Actual(disk, [c.root]);
    Pending(ReconcileKind, s.generation + 1, Structure(previous, puts), puts, previous.Keys - puts.Keys)
  }

  lemma PassOfRoot(c: Config, s: State, disk: Tree)
    requires c.Valid() && c.hasSink && s.pending.None?
    ensures (Do(c, s, RootPass(c, disk)), Answer(c, s, RootPass(c, disk))) ==
              Complete(c, s.(pending := Some(RootWork(c, s, disk))), Written)
  {
    assert Collapse(c.root, [c.root], 1) == [c.root];
    var events := Structure(Previous(s.store, disk, [c.root]), Actual(disk, [c.root]));
    assert events + [] + [] == events;
  }

  lemma DifferAt(a: Tree, b: Tree, p: Path)
    requires (p in a) != (p in b)
    ensures ViewOf(a) != ViewOf(b)
  {
    assert (p in ViewOf(a)) != (p in ViewOf(b));
  }

  /** A generation of one event is committed while the consumer drops its only batch. */
  lemma DroppedGeneration(c: Config, start: View, s: State, w: Pending, e: Event, p: Path)
    requires c.Valid() && c.answers(|s.log|).Accepted? && w.events == [e]
    requires (w.generation, 0) in Consumed(start, s.log).seen && Consumed(start, s.log).view == ViewOf(s.store)
    requires (p in Writes(s.store, w.puts, w.deletes)) != (p in s.store)
    ensures var s' := Complete(c, s.(pending := Some(w)), Written).0;
            s'.pending.None? && Consumed(start, s'.log).view != ViewOf(s'.store)
  {
    DifferAt(Writes(s.store, w.puts, w.deletes), s.store, p);
    OneEventBatch(c, w, e);
    var batch := Batch(c.session, w.generation, 0, true, [e]);
    DeliverOne(batch, s.log, c.answers);
    var a := Attempt(batch, c.answers(|s.log|));
    assert (s.log + [a])[..|s.log|] == s.log;
    assert Consumed(start, s.log + [a]) == Receive(Consumed(start, s.log), a);
  }

  /** A disk that holds what the store holds, except for one file in the root. */
  function Toggled(root: Path, store: Tree): Tree {
    var p, disk := root + ["a"], store[root := Meta("", Directory, 0, 0, 0)];
    if p in store then disk - {p} else disk[p := Meta("", Regular, 0, 0, 0)]
  }

  lemma ToggledDiffers(root: Path, store: Tree)
    ensures var p, disk := root + ["a"], Toggled(root, store);
            var previous, puts := Previous(store, disk, [root]), Actual(disk, [root]);
            && (p in previous <==> p in store) && (p in puts <==> p !in store)
            && (forall q | q != p :: At(previous, q) == At(puts, q))
            && (p in Writes(store, puts, previous.Keys - puts.Keys) <==> p !in store)
  {
    var p, disk := root + ["a"], Toggled(root, store);
    assert |p| == |root| + 1 && Above(root, p);
    assert forall q | q != p && q != root :: At(disk, q) == At(store, q);
    BelowRoot(store, disk, root);
  }

  /** A pass over a root that is a directory compares what lies strictly below it. */
  lemma BelowRoot(store: Tree, disk: Tree, root: Path)
    requires IsDir(disk, root)
    ensures forall q :: At(Previous(store, disk, [root]), q) ==
                          if q != root && Above(root, q) then At(store, q) else None
    ensures forall q :: At(Actual(disk, [root]), q) == if q != root && Above(root, q) then At(disk, q) else None
  {
    assert root in [root];
  }

  /** Two trees that differ by the presence of one path differ by one event. */
  lemma OneDifference(previous: Tree, actual: Tree, p: Path) returns (e: Event)
    requires (p in previous) != (p in actual) && forall q | q != p :: At(previous, q) == At(actual, q)
    ensures Structure(previous, actual) == [e]
  {
    DifferingPaths(previous, actual, p);
    NothingPicked(SortedPaths(actual.Keys), SharedOf(previous, actual));
    NothingPicked(SortedIds({}), MovedOf(previous, actual));
    if p in actual {
      e := Created(p, actual[p]);
      OnePicked(p, CreatedOf(actual));
      NothingPicked(SortedPaths({}), DeletedOf(previous));
    } else {
      e := Deleted(p, previous[p]);
      OnePicked(p, DeletedOf(previous));
      NothingPicked(SortedPaths({}), CreatedOf(actual));
    }
  }

  lemma DifferingPaths(previous: Tree, actual: Tree, p: Path)
    requires (p in previous) != (p in actual) && forall q | q != p :: At(previous, q) == At(actual, q)
    ensures forall q :: SharedOf(previous, actual)(q) == None
    ensures MovedIds(previous, actual) == {}
    ensures CreatedPaths(previous, actual) == if p in actual then {p} else {}
    ensures DeletedPaths(previous, actual) == if p in previous then {p} else {}
  {
    forall q | q != p
      ensures (q in previous <==> q in actual) && (q in previous ==> previous[q] == actual[q])
    {
      assert At(previous, q) == At(actual, q);
    }
    assert Leftover(previous, actual) == map[] || Leftover(actual, previous) == map[];
  }

  lemma NothingPicked<T>(xs: seq<T>, f: T -> Option<Event>)
    requires forall x | x in xs :: f(x) == None
    ensures Picks(xs, f) == []
  {
    if Picks(xs, f) != [] {
      var e := Picks(xs, f)[0];
      InPicks(xs, f, e);
    }
  }

  lemma OnePicked(p: Path, f: Path -> Option<Event>)
    requires f(p).Some?
    ensures Picks(SortedPaths({p}), f) == [f(p).value]
  {
    SortedPathsOrdered({p});
    var xs := SortedPaths({p});
    assert xs[0] in xs;
    assert xs == [p];
    assert PicksTo(xs, 0, f) == [];
    assert PicksTo(xs, 1, f) == [f(p).value];
  }

  /** So there is a run, from every store, that ends with nothing pending and the consumer wrong:
      a scrub whose log is lost after its first batch was accepted, then a reconciliation. */
  lemma LostLogMisleadsConsumer(root: Path, store: Tree) returns (c: Config, calls: seq<Call>)
    ensures c.Valid() && c.hasSink && c.root == root && |calls| == 2 && forall i | 0 <= i < 2 :: Orderly(calls[i])
    ensures var end := Run(c, State(store, 0, None, []), calls, 2);
            end.pending.None? && Consumed(ViewOf(store), end.log).view != ViewOf(end.store)
  {
    c := Config(root, "s", 1, true, m => true, n => Accepted);
    var e, s, start := Corrupt(root, Meta("", Regular, 0, 0, 0)), State(store, 0, None, []), ViewOf(store);
    var first := Scrub(Some([e, e]), Some(2), Written);
    AcceptingSinkDelivers(ScrubBatches(c, FreezeScrub(s, [e, e]), Some(2)), [], c.answers);
    assert Leaks(c, s, first);
    LeakIsSeen(c, start, s, first);
    var next := SkippedBatchMisleads(c, start, Do(c, s, first));
    calls := [first, next];
    TwoCalls(c, s, first, next);
  }

  /*** Batch identities ***/

  /** Two calls with the same batch identity carried the same batch. */
  ghost predicate Consistent(log: seq<Attempt>) {
    forall a, b | a in log && b in log
                  && a.batch.generation == b.batch.generation && a.batch.sequence == b.batch.sequence ::
      a.batch == b.batch
  }

  /** Nothing later than generation `g` was sent, and of `g` only the given batches. */
  ghost predicate Frozen(log: seq<Attempt>, g: nat, bs: seq<Batch>) {
    forall a | a in log ::
      a.batch.generation < g || (a.batch.generation == g && a.batch.sequence < |bs| && a.batch == bs[a.batch.sequence])
  }

  ghost predicate Immutable(c: Config, s: State)
    requires c.Valid()
  {
    && Consistent(s.log)
    && match s.pending
       case None => Frozen(s.log, s.generation + 1, [])
       case Some(p) => p.generation == s.generation + 1 && Frozen(s.log, p.generation, BatchesOf(c, p))
  }

  lemma DeliverStaysFrozen(log: seq<Attempt>, g: nat, bs: seq<Batch>, sent: seq<Batch>, answers: Answers)
    requires Numbered(bs, g) && sent <= bs && Consistent(log) && Frozen(log, g, bs)
    ensures Consistent(Deliver(sent, log, answers).0) && Frozen(Deliver(sent, log, answers).0, g, bs)
  {
    var log' := Deliver(sent, log, answers).0;
    DeliverIsInOrder(sent, log, answers);
    forall a | a in log'
      ensures a in log || (a.batch.generation == g && a.batch.sequence < |bs| && a.batch == bs[a.batch.sequence])
    {
      var i :| 0 <= i < |log'| && log'[i] == a;
      if i >= |log| {
        assert a.batch == sent[i - |log|] == bs[i - |log|];
      }
    }
  }

  lemma CompleteStaysImmutable(c: Config, s: State, write: Write)
    requires c.Valid() && s.pending.Some? && Immutable(c, s)
    ensures Immutable(c, Complete(c, s, write).0)
  {
    var p := s.pending.value;
    NumberedBatches(c, p);
    DeliverStaysFrozen(s.log, p.generation, BatchesOf(c, p), BatchesOf(c, p), c.answers);
  }

  lemma FreshStaysImmutable(c: Config, s: State, requested: seq<Path>, scan: Option<Scan>, write: Write)
    requires c.Valid() && s.pending.None? && Immutable(c, s)
    ensures Immutable(c, Fresh(c, s, requested, scan, write).0)
  {
    var scopes := Collapse(c.root, requested, |requested|);
    if scopes != [] && scan.Some? && c.hasSink {
      var p := Freeze(c, s, scopes, scan.value);
      assert Frozen(s.log, p.generation, BatchesOf(c, p));
      CompleteStaysImmutable(c, s.(pending := Some(p)), write);
    }
  }

  lemma FreshScrubStaysImmutable(c: Config, s: State, found: Option<seq<Event>>, readable: Option<nat>)
    requires c.Valid() && s.pending.None? && Immutable(c, s)
    requires c.hasSink && found.Some? && readable.Some? ==>
               !Deliver(ScrubBatches(c, FreezeScrub(s, found.value), readable), s.log, c.answers).1
               || |ReadBack(found.value, readable)| <= c.limit
    ensures Immutable(c, FreshScrub(c, s, found, readable).0)
  {
    if found.Some? && c.hasSink {
      var p := FreezeScrub(s, found.value);
      ScrubBatchesArePrefix(c, p, readable);
      NumberedBatches(c, p);
      assert Frozen(s.log, p.generation, BatchesOf(c, p));
      DeliverStaysFrozen(s.log, p.generation, BatchesOf(c, p), ScrubBatches(c, p, readable), c.answers);
    }
  }

  lemma ResumedStaysImmutable(c: Config, s: State, call: Call)
    requires c.Valid() && Immutable(c, s)
    ensures Immutable(c, Resumed(c, s, call))
  {
    if s.pending.Some? {
      CompleteStaysImmutable(c, s, call.write);
    }
  }

  /** A call keeps batch identities frozen exactly if it does not leak. */
  lemma DoStaysImmutable(c: Config, s: State, call: Call)
    requires c.Valid() && Immutable(c, s)
    ensures Immutable(c, Do(c, s, call)) <==> !Leaks(c, s, call)
  {
    var s1 := Resumed(c, s, call);
    ResumedStaysImmutable(c, s, call);
    CallIsTwoSteps(c, s, call);
    if GetsToOwnWork(c, s, call) {
      match call
      case Reconcile(requested, scan, write) => FreshStaysImmutable(c, s1, requested, scan, write);
      case Scrub(found, readable, _) =>
        if Leaks(c, s, call) {
          var a := LeakIsLogged(c, s, call);
        } else {
          FreshScrubStaysImmutable(c, s1, found, readable);
        }
    }
  }

  /** A leak leaves in the log a batch that is not final of the generation that comes next, and
      the log is consistent still. */
  lemma LeakIsLogged(c: Config, s: State, call: Call) returns (a: Attempt)
    requires c.Valid() && Immutable(c, s) && Leaks(c, s, call)
    ensures var s' := Do(c, s, call);
            && s'.pending.None? && a in s'.log && Consistent(s'.log)
            && a.batch.generation == s'.generation + 1 && a.batch.sequence == 0 && !a.batch.final
  {
    var s1, s' := Resumed(c, s, call), Do(c, s, call);
    ResumedStaysImmutable(c, s, call);
    CallIsTwoSteps(c, s, call);
    var p := FreezeScrub(s1, call.found.value);
    var sent := ScrubBatches(c, p, call.readable);
    ScrubBatchesArePrefix(c, p, call.readable);
    NumberedBatches(c, p);
    assert Frozen(s1.log, p.generation, BatchesOf(c, p));
    DeliverStaysFrozen(s1.log, p.generation, BatchesOf(c, p), sent, c.answers);
    DeliverIsInOrder(sent, s1.log, c.answers);
    BatchesAreExact(c.session, p.generation, ReadBack(p.events, call.readable), c.limit, 0);
    a := s'.log[|s1.log|];
    assert a.batch == sent[0];
  }

  /** All along a run the batch identities are frozen exactly if no call leaks; two calls of the
      sink with the same identity then carry equal batches, and the pending generation is the one
      after the committed one. */
  lemma BatchIdentityIsImmutable(c: Config, s: State, calls: seq<Call>, n: nat)
    requires c.Valid() && s.pending.None? && s.log == [] && n <= |calls|
    ensures Tight(c, s, calls, n) <==> AllAlong(c, s, calls, n, Freezing(c))
    ensures Tight(c, s, calls, n) ==>
              var end := Run(c, s, calls, n);
              && Consistent(end.log)
              && (end.pending.Some? ==> end.pending.value.generation == end.generation + 1)
  {
    forall i | 0 <= i < n
      ensures KeptUnlessLeak(c, s, calls, i, Freezing(c))
    {
      var t := Run(c, s, calls, i);
      if Immutable(c, t) {
        DoStaysImmutable(c, t, calls[i]);
      }
    }
    TightExactly(c, s, calls, n, Freezing(c));
  }

  ghost function Freezing(c: Config): State -> bool {
    s => c.Valid() && Immutable(c, s)
  }

  /** After a call, no next call can reuse a batch identity for another batch, exactly if the call
      did not leak. */
  lemma IdentitySurvivesExactly(c: Config, s: State, call: Call)
    requires c.Valid() && Immutable(c, s)
    ensures (forall next :: Consistent(Do(c, Do(c, s, call), next).log)) <==> !Leaks(c, s, call)
  {
    var s1 := Do(c, s, call);
    DoStaysImmutable(c, s, call);
    if Leaks(c, s, call) {
      var next := LeakBreaksIdentity(c, s, call);
    } else {
      forall next
        ensures Consistent(Do(c, s1, next).log)
      {
        DoStaysImmutable(c, s1, next);
        if Leaks(c, s1, next) {
          var a := LeakIsLogged(c, s1, next);
        }
      }
    }
  }

  /** The call that does it: a scrub that finds one corrupt file. */
  lemma LeakBreaksIdentity(c: Config, s: State, call: Call) returns (next: Call)
    requires c.Valid() && Immutable(c, s) && Leaks(c, s, call)
    ensures !LosesLog(c, next) && !Consistent(Do(c, Do(c, s, call), next).log)
  {
    var e := Corrupt(c.root, Meta("", Regular, 0, 0, 0));
    next := Scrub(Some([e]), None, Written);
    var a := LeakIsLogged(c, s, call);
    var s1 := Do(c, s, call);
    var s2 := Do(c, s1, next);
    OneEventBatch(c, FreezeScrub(s1, [e]), e);
    ScrubBatchesArePrefix(c, FreezeScrub(s1, [e]), None);
    DeliverIsInOrder(BatchesOf(c, FreezeScrub(s1, [e])), s1.log, c.answers);
    var b := s2.log[|s1.log|];
    assert b.batch.final && b in s2.log;
    var i :| 0 <= i < |s1.log| && s1.log[i] == a;
    assert s2.log[i] == a;
  }

  lemma OneEventBatch(c: Config, p: Pending, e: Event)
    requires c.Valid() && p.events == [e]
    ensures BatchesOf(c, p) == [Batch(c.session, p.generation, 0, true, [e])]
  {}

  /*** Order of delivery and commit ***/

  /** From position `i` on, the log shows every batch of the generation accepted, in order. */
  ghost predicate Delivered(c: Config, p: Pending, i: nat, log: seq<Attempt>)
    requires c.Valid()
  {
    var bs := BatchesOf(c, p);
    i + |bs| <= |log| && forall j | i <= j < i + |bs| :: log[j] == Attempt(bs[j - i], Accepted)
  }

  /** What the own work of a call freezes; without scopes, an empty generation. */
  ghost function OwnWork(c: Config, s: State, call: Call): Option<Pending> {
    match call
    case Reconcile(requested, scan, _) =>
      var scopes := Collapse(c.root, requested, |requested|);
      if scopes == [] then Some(Pending(ReconcileKind, s.generation + 1, [], map[], {}))
      else if scan.Some? then Some(Freeze(c, s, scopes, scan.value))
      else None
    case Scrub(found, _, _) =>
      if found.Some? then Some(FreezeScrub(s, found.value)) else None
  }

  /** What does not complete stays pending unchanged; what completes was delivered in full. */
  lemma CompleteCommitsAfterDelivery(c: Config, s: State, write: Write)
    requires c.Valid() && s.pending.Some?
    ensures var (s', ok) := Complete(c, s, write);
            && s.log <= s'.log
            && (ok || s'.store != s.store ==> Delivered(c, s.pending.value, |s.log|, s'.log))
            && (ok ==> s'.pending.None? && s'.generation == s.pending.value.generation)
            && (!ok ==> s'.pending == s.pending && s'.generation == s.generation)
  {
    DeliverIsInOrder(BatchesOf(c, s.pending.value), s.log, c.answers);
  }

  /** What the own work of a call may do to the state it starts from. */
  ghost predicate OwnStep(c: Config, s: State, call: Call, s': State, ok: bool)
    requires c.Valid()
  {
    var own := OwnWork(c, s, call);
    && s.log <= s'.log
    && s'.generation == s.generation + (if ok then 1 else 0)
    && (s'.store != s.store || ok ==> own.Some? && Delivered(c, own.value, |s.log|, s'.log))
    && (s'.pending.Some? ==> s'.pending == own && !ok)
  }

  lemma OwnReconcile(c: Config, s: State, call: Call)
    requires c.Valid() && c.hasSink && s.pending.None? && call.Reconcile?
    ensures OwnStep(c, s, call, Do(c, s, call), Answer(c, s, call))
  {
    if Collapse(c.root, call.requested, |call.requested|) != [] && call.scan.Some? {
      CompleteCommitsAfterDelivery(c, s.(pending := OwnWork(c, s, call)), call.write);
    }
  }

  lemma OwnScrub(c: Config, s: State, call: Call)
    requires c.Valid() && c.hasSink && s.pending.None? && call.Scrub?
    ensures OwnStep(c, s, call, Do(c, s, call), Answer(c, s, call))
  {
    if call.found.Some? {
      var own := FreezeScrub(s, call.found.value);
      var sent := ScrubBatches(c, own, call.readable);
      ScrubBatchesArePrefix(c, own, call.readable);
      DeliverIsInOrder(sent, s.log, c.answers);
      var (log, ok) := Deliver(sent, s.log, c.answers);
      if ok && call.readable.None? {
        assert Delivered(c, own, |s.log|, log);
      }
    }
  }

  /** With a sink: a call changes nothing before the pending generation is delivered in full,
      and its own work changes nothing before its own generation is.  The generation advances
      by one for each of the two that completes, and never otherwise; what does not complete
      stays pending as it was frozen. */
  lemma CommitFollowsDelivery(c: Config, s: State, call: Call)
    requires c.Valid() && c.hasSink
    requires s.pending.Some? ==> s.pending.value.generation == s.generation + 1
    ensures var s1, s', ok := Resumed(c, s, call), Do(c, s, call), Answer(c, s, call);
            && s.log <= s1.log <= s'.log
            && (s.pending.Some? && (s'.store != s.store || s'.generation != s.generation) ==>
                  Delivered(c, s.pending.value, |s.log|, s1.log))
            && s1.generation == s.generation + (if s.pending.Some? && s1.pending.None? then 1 else 0)
            && (s1.pending.Some? ==> s1.pending == s.pending)
            && (if GetsToOwnWork(c, s, call) then OwnStep(c, s1, call, s', ok)
                else s' == s1 && (ok <==> s1.pending.None?))
            && (s'.pending.Some? ==> s'.pending.value.generation == s'.generation + 1)
  {
    var s1 := Resumed(c, s, call);
    if s.pending.Some? {
      CompleteCommitsAfterDelivery(c, s, call.write);
    }
    if s1.pending.None? && call.Reconcile? {
      OwnReconcile(c, s1, call);
    } else if s1.pending.None? {
      OwnScrub(c, s1, call);
    }
  }

  /** A call that succeeds advances the generation by one, and by two if it first finished a pending
      generation of the other kind. */
  lemma GenerationAdvances(c: Config, s: State, call: Call)
    requires c.Valid() && (s.pending.Some? ==> s.pending.value.generation == s.generation + 1)
    ensures Answer(c, s, call) ==>
              var both := s.pending.Some? && s.pending.value.kind.IntegrityKind? == call.Reconcile?;
              Do(c, s, call).generation == s.generation + if both then 2 else 1
  {
    CallIsTwoSteps(c, s, call);
    if GetsToOwnWork(c, s, call) {
      OwnWorkAdvances(c, Resumed(c, s, call), call);
    }
  }

  lemma OwnWorkAdvances(c: Config, s: State, call: Call)
    requires c.Valid() && s.pending.None?
    ensures Answer(c, s, call) ==> Do(c, s, call).generation == s.generation + 1
  {}

  /** Without a sink nothing is ever pending or sent.  A call succeeds exactly if the environment
      lets it, it advances the generation by one exactly if it succeeds, and it changes the
      snapshot only at the paths it scanned or that were stored there. */
  lemma WithoutSink(c: Config, s: State, call: Call)
    requires c.Valid() && !c.hasSink && s.pending.None?
    ensures var s', ok := Do(c, s, call), Answer(c, s, call);
            && s'.pending.None? && s'.log == s.log
            && s'.generation == s.generation + (if ok then 1 else 0)
            && (call.Scrub? ==> s'.store == s.store && (ok <==> call.found.Some?))
            && (call.Reconcile? && call.requested == [] ==> ok && s'.store == s.store)
            && (call.Reconcile? && call.requested != [] ==>
                  && (ok <==> call.scan.Some? && call.write.Written?)
                  && (call.scan.None? ==> s'.store == s.store)
                  && (call.scan.Some? ==>
                        var all := Reconciled(s.store, call.scan.value.disk,
                                              Collapse(c.root, call.requested, |call.requested|));
                        forall p :: At(s'.store, p) ==
                                      if ok || p in call.write.done then At(all, p) else At(s.store, p)))
  {
    if call.Reconcile? && call.requested != [] {
      CollapseNotEmpty(c.root, call.requested);
      if call.scan.Some? {
        var w := Freeze(c, s, Collapse(c.root, call.requested, |call.requested|), call.scan.value);
        if call.write.Torn? {
          forall p
            ensures At(Do(c, s, call).store, p) ==
                      if p in call.write.done then At(Writes(s.store, w.puts, w.deletes), p) else At(s.store, p)
          {
            TornExactly(s.store, w.puts, w.deletes, call.write.done, p);
          }
        }
      }
    }
  }

  /*** When the disk is looked at ***/

  /** A completed reconciliation of its own leaves the snapshot reconciled with the disk
      within its scopes. */
  lemma FreshReconciles(c: Config, s: State, requested: seq<Path>, scan: Scan, write: Write)
    requires c.Valid() && s.pending.None? && requested != []
    ensures var (s', ok) := Fresh(c, s, requested, Some(scan), write);
            ok ==> s'.store == Reconciled(s.store, scan.disk, Collapse(c.root, requested, |requested|))
  {
    CollapseNotEmpty(c.root, requested);
    var p := Freeze(c, s, Collapse(c.root, requested, |requested|), scan);
    if c.hasSink {
      CompleteWrites(c, s.(pending := Some(p)), write);
    }
  }

  lemma CompleteWrites(c: Config, s: State, write: Write)
    requires c.Valid() && s.pending.Some?
    ensures var p, (s', ok) := s.pending.value, Complete(c, s, write);
            ok ==> s'.store == Writes(s.store, p.puts, p.deletes)
  {}

  /** The way of a notification through the tracker: its hint goes into the dirty set, among any
      others; what is drained is reconciled; if that completes with nothing pending before, the
      snapshot has at the path what the disk has. */
  lemma NotificationReachesSnapshot(c: Config, s: State, path: Path, added: set<Path>, scan: Scan, write: Write)
    requires c.Valid() && s.pending.None? && Hierarchy(scan.disk)
    requires path != c.root && Normalize(path, c.root).Some? && Normalize(path, c.root).value in added
    ensures var drained := SortedPaths(Top(added));
            var (s', ok) := Fresh(c, s, drained, Some(scan), write);
            ok ==> At(s'.store, path) == At(scan.disk, path)
  {
    var drained := SortedPaths(Top(added));
    assert Elements(drained) == Top(added);
    var hint := Normalize(path, c.root).value;
    var t := TopmostAbove(added, hint);
    assert t in drained;
    NotificationIsReconciled(c.root, path, added, drained, s.store, scan.disk);
    FreshReconciles(c, s, drained, scan, write);
  }

  /** A reconciliation called while another is pending only finishes that one: it never
      looks at the scopes it was called for. */
  lemma ResumingIgnoresScopes(c: Config, s: State, requested: seq<Path>, scan: Option<Scan>,
                              requested': seq<Path>, scan': Option<Scan>, write: Write)
    requires c.Valid() && s.pending.Some? && s.pending.value.kind.ReconcileKind?
    ensures Do(c, s, Reconcile(requested, scan, write)) == Do(c, s, Reconcile(requested', scan', write))
    ensures Answer(c, s, Reconcile(requested, scan, write)) == Answer(c, s, Reconcile(requested', scan', write))
  {}

  /** A scrub called while another is pending only finishes that one: it never looks at a file. */
  lemma ResumingIgnoresFindings(c: Config, s: State, found: Option<seq<Event>>, readable: Option<nat>,
                                found': Option<seq<Event>>, readable': Option<nat>, write: Write)
    requires c.Valid() && s.pending.Some? && s.pending.value.kind.IntegrityKind?
    ensures Do(c, s, Scrub(found, readable, write)) == Do(c, s, Scrub(found', readable', write))
    ensures Answer(c, s, Scrub(found, readable, write)) == Answer(c, s, Scrub(found', readable', write))
  {}

  /** A sink that accepts everything ends every delivery in success. */
  lemma AcceptingSinkDelivers(batches: seq<Batch>, log: seq<Attempt>, answers: Answers)
    requires forall n | n >= |log| :: answers(n).Accepted?
    ensures Deliver(batches, log, answers).1
  {
    DeliverIsInOrder(batches, log, answers);
  }

  /** A directory with its ancestors and nothing else. */
  function Branch(p: Path): Tree {
    (if p == [] then map[] else Branch(Parent(p)))[p := Meta("", Directory, 0, 0, 0)]
  }

  lemma {:induction false} BranchHolds(p: Path, q: Path)
    ensures q in Branch(p) <==> Above(q, p)
    ensures q in Branch(p) ==> IsDir(Branch(p), q)
  {
    if p != [] {
      BranchHolds(Parent(p), q);
      assert Above(q, p) <==> q == p || Above(q, Parent(p)) by {
        assert |q| < |p| ==> p[..|q|] == Parent(p)[..|q|];
      }
    }
  }

  lemma BranchIsHierarchy(p: Path)
    ensures Hierarchy(Branch(p)) && p in Branch(p)
  {
    forall q, t | q in Branch(p) && t != q && Above(t, q)
      ensures IsDir(Branch(p), t)
    {
      BranchHolds(p, q);
      BranchHolds(p, t);
      AboveTransitive(t, q, p);
    }
  }

  /** The call, if it succeeds, leaves the snapshot right at the path. */
  ghost predicate RightAt(c: Config, s: State, requested: seq<Path>, path: Path, scan: Scan, write: Write,
                          answers: Answers)
    requires c.Valid()
  {
    var c', call := c.(answers := answers), Reconcile(requested, Some(scan), write);
    Hierarchy(scan.disk) && Answer(c', s, call) ==> At(Do(c', s, call).store, path) == At(scan.disk, path)
  }

  /** Every successful call for these scopes leaves the snapshot right at the path, whatever is
      on disk, however the sink answers and the store reacts. */
  ghost predicate Refreshes(c: Config, s: State, requested: seq<Path>, path: Path)
    requires c.Valid()
  {
    forall scan, write, answers :: RightAt(c, s, requested, path, scan, write, answers)
  }

  /** A reconciliation of the drained scopes keeps the promise behind a notification exactly
      if no other reconciliation is pending when it is called. */
  lemma PromiseKeptExactly(c: Config, s: State, path: Path, added: set<Path>)
    requires c.Valid()
    requires path != c.root && Normalize(path, c.root).Some? && Normalize(path, c.root).value in added
    ensures Refreshes(c, s, SortedPaths(Top(added)), path) <==>
              !(s.pending.Some? && s.pending.value.kind.ReconcileKind?)
  {
    var drained := SortedPaths(Top(added));
    if s.pending.Some? && s.pending.value.kind.ReconcileKind? {
      ResumingForgets(c, s, drained, path);
    } else {
      forall scan, write, answers
        ensures RightAt(c, s, drained, path, scan, write, answers)
      {
        var c' := c.(answers := answers);
        var s1 := if s.pending.Some? then Complete(c', s, write).0 else s;
        if Hierarchy(scan.disk) && s1.pending.None? {
          NotificationReachesSnapshot(c', s1, path, added, scan, write);
        }
      }
    }
  }

  /** While a reconciliation is pending, for any scopes and any path there is a disk that a
      successful call for these scopes does not see. */
  lemma ResumingForgets(c: Config, s: State, requested: seq<Path>, path: Path)
    requires c.Valid() && s.pending.Some? && s.pending.value.kind.ReconcileKind?
    ensures !Refreshes(c, s, requested, path)
  {
    var answers: Answers := n => Accepted;
    var c', p := c.(answers := answers), s.pending.value;
    var kept := Writes(s.store, p.puts, p.deletes);
    var disk := if path in kept then map[] else Branch(path);
    BranchIsHierarchy(path);
    AcceptingSinkDelivers(BatchesOf(c', p), s.log, answers);
    var scan, call := Scan(disk, None, []), Reconcile(requested, Some(Scan(disk, None, [])), Written);
    assert Answer(c', s, call) && Do(c', s, call).store == kept;
    assert Hierarchy(scan.disk) && At(kept, path) != At(disk, path);
    assert !RightAt(c, s, requested, path, scan, Written, answers);
  }

  /** So a path can stay wrong although the call for its scope succeeded and nothing is pending:
      the sink refuses the report of `a`, then `p` appears, and the retry succeeds without it. */
  lemma RetryForgets(c: Config, s: State, before: Tree, disk: Tree, a: Path, p: Path)
    requires c.Valid() && c.hasSink && s.pending.None?
    requires !c.answers(|s.log|).Accepted? && forall n | n > |s.log| :: c.answers(n).Accepted?
    requires IsDir(before, c.root) && a in before && a != c.root && Above(c.root, a) && a !in s.store
    requires p !in before && p !in s.store
    ensures var s1 := Do(c, s, RootPass(c, before));
            var s2 := Do(c, s1, RootPass(c, disk));
            && s1.pending.Some? && s1.generation == s.generation
            && Answer(c, s1, RootPass(c, disk)) && s2.pending.None? && s2.generation == s.generation + 1
            && p !in s2.store
  {
    var s1 := FirstIsRefused(c, s, before, a);
    RetrySucceeds(c, s1, RootPass(c, disk));
  }

  /** The same as a run from an empty snapshot. */
  lemma DrainedScopeIsForgotten() returns (c: Config, before: Tree, disk: Tree, p: Path)
    ensures c.Valid() && Hierarchy(disk) && Refreshed(disk, [c.root], p)
    ensures var s, calls := State(map[], 0, None, []), [RootPass(c, before), RootPass(c, disk)];
            && Answer(c, Run(c, s, calls, 1), calls[1])
            && Run(c, s, calls, 2).pending.None? && Run(c, s, calls, 2).generation == 1
            && At(Run(c, s, calls, 2).store, p) != At(disk, p)
  {
    var root: Path, a: Path := [], ["a"];
    p := ["b"];
    c := Config(root, "s", 1, true, m => true, n => if n == 0 then FailedUnseen else Accepted);
    var dir, file := Meta("1", Directory, 0, 0, 0), Meta("2", Regular, 0, 0, 0);
    before, disk := map[root := dir, a := file], map[root := dir, a := file, p := file];
    assert root in [root] && Above(root, p) && p != root;
    assert Refreshed(disk, [root], p);
    assert forall q | q in disk :: |q| <= 1;
    var s := State(map[], 0, None, []);
    RetryForgets(c, s, before, disk, a, p);
    TwoCalls(c, s, RootPass(c, before), RootPass(c, disk));
  }

  lemma TwoCalls(c: Config, s: State, first: Call, second: Call)
    requires c.Valid()
    ensures Run(c, s, [first, second], 1) == Do(c, s, first)
    ensures Run(c, s, [first, second], 2) == Do(c, Do(c, s, first), second)
  {
    var calls := [first, second];
    assert Run(c, s, calls, 0) == s;
    assert Run(c, s, calls, 1) == Do(c, Run(c, s, calls, 0), calls[0]);
    assert Run(c, s, calls, 2) == Do(c, Run(c, s, calls, 1), calls[1]);
  }

  lemma RetrySucceeds(c: Config, s: State, call: Call)
    requires c.Valid() && s.pending.Some? && s.pending.value.kind.ReconcileKind?
    requires call.Reconcile? && call.write.Written? && forall n | n >= |s.log| :: c.answers(n).Accepted?
    ensures var p, s' := s.pending.value, Do(c, s, call);
            && Answer(c, s, call) && s'.pending.None? && s'.generation == p.generation
            && s'.store == Writes(s.store, p.puts, p.deletes)
  {
    AcceptingSinkDelivers(BatchesOf(c, s.pending.value), s.log, c.answers);
  }

  /** A reconciliation that has something to report stays pending if the sink refuses. */
  lemma FirstIsRefused(c: Config, s: State, disk: Tree, p: Path) returns (s': State)
    requires c.Valid() && c.hasSink && s.pending.None? && !c.answers(|s.log|).Accepted?
    requires IsDir(disk, c.root) && p in disk && p != c.root && Above(c.root, p) && p !in s.store
    ensures s' == Do(c, s, RootPass(c, disk))
    ensures s'.pending == Some(RootWork(c, s, disk))
    ensures s'.store == s.store && s'.generation == s.generation && |s'.log| == |s.log| + 1
  {
    s' := Do(c, s, RootPass(c, disk));
    PassOfRoot(c, s, disk);
    var w := RootWork(c, s, disk);
    SomethingToReport(s.store, disk, c.root, p);
    assert BatchesOf(c, w) != [];
  }

  lemma SomethingToReport(store: Tree, disk: Tree, root: Path, p: Path)
    requires IsDir(disk, root) && p in disk && p != root && Above(root, p) && p !in store
    ensures Structure(Previous(store, disk, [root]), Actual(disk, [root])) != []
  {
    BelowRoot(store, disk, root);
    var previous, puts := Previous(store, disk, [root]), Actual(disk, [root]);
    assert At(previous, p) == None && At(puts, p) == At(disk, p);
    var e := Witness(previous, puts, p);
    StructureIsExact(previous, puts, e);
  }
}
