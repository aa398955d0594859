/** The tracker's operations, as they update its fields; each is proved against the step
    functions of the protocol. */
module TrackerOps {
  import opened Paths
  import opened Entries
  import opened Diff
  import opened Delivery
  import opened Scopes
  import opened Protocol

  class Tracker {
    const c: Config
    const sink: Sink
    var store: Tree
    var generation: nat
    var pending: Option<Pending>

    ghost predicate Valid()
      reads this
    {
      && c.Valid() && sink.answers == c.answers
      && (pending.Some? ==> c.hasSink) && Writeless(pending)
    }

    ghost function Now(): State
      reads this, sink
    {
      State(store, generation, pending, sink.log)
    }

    constructor (c: Config, sink: Sink, store: Tree)
      requires c.Valid() && sink.answers == c.answers
      ensures Valid() && this.c == c && this.sink == sink
      ensures this.store == store && generation == 0 && pending == None
    {
      this.c := c;
      this.sink := sink;
      this.store := store;
      generation := 0;
      pending := None;
    }

    method DeliverPending() returns (ok: bool)
      requires Valid()
      modifies sink
      ensures pending.Some? ==>
                (sink.log, ok) == Deliver(BatchesOf(c, pending.value), old(sink.log), c.answers)
      ensures pending.None? ==> ok && sink.log == old(sink.log)
    {
      if pending.None? || !c.hasSink {
        return true;
      }
      ok := DeliverAll(sink, c.session, pending.value.generation, c.limit, pending.value.events, true);
    }

    /** The writes of one generation; the environment decides how far they get. */
    method Apply(puts: Tree, deletes: set<Path>, write: Write) returns (ok: bool)
      modifies this`store
      ensures ok == write.Written?
      ensures store == if ok then Writes(old(store), puts, deletes) else WritesAt(old(store), puts, deletes, write.done)
    {
      match write
      case Written =>
        store := Writes(store, puts, deletes);
        ok := true;
      case Torn(done) =>
        store := WritesAt(store, puts, deletes, done);
        ok := false;
    }

    method ResumePending(write: Write) returns (ok: bool)
      requires Valid() && pending.Some? && pending.value.kind.ReconcileKind?
      modifies this, sink
      ensures Valid() && (Now(), ok) == Complete(c, old(Now()), write)
    {
      var p := pending.value;
      ok := DeliverPending();
      if !ok {
        return;
      }
      ok := Apply(p.puts, p.deletes, write);
      if !ok {
        return;
      }
      pending := None;
      generation := p.generation;
    }

    method ResumePendingIntegrity() returns (ok: bool)
      requires Valid() && pending.Some? && pending.value.kind.IntegrityKind?
      modifies this, sink
      ensures Valid() && (ok ==> pending.None?)
      ensures forall write :: (Now(), ok) == Complete(c, old(Now()), write)
    {
      var p := pending.value;
      ok := DeliverAll(sink, c.session, p.generation, c.limit, p.events, true);
      assert Writes(store, map[], {}) == store;
      if !ok {
        return;
      }
      pending := None;
      generation := p.generation;
    }

    /** Reconciles the requested scopes, after finishing what is pending. */
    method ReconcileScopes(requested: seq<Path>, scan: Option<Scan>, write: Write) returns (ok: bool)
      requires Valid()
      modifies this, sink
      ensures Valid()
      ensures Now() == Do(c, old(Now()), Reconcile(requested, scan, write))
      ensures ok == Answer(c, old(Now()), Reconcile(requested, scan, write))
    {
      if pending.Some? {
        if pending.value.kind.IntegrityKind? {
          ok := ResumePendingIntegrity();
          if !ok {
            return;
          }
        } else {
          ok := ResumePending(write);
          return;
        }
      }
      ok := ReconcileFresh(requested, scan, write);
    }

    method ReconcileFresh(requested: seq<Path>, scan: Option<Scan>, write: Write) returns (ok: bool)
      requires Valid() && pending.None?
      modifies this, sink
      ensures Valid() && (Now(), ok) == Fresh(c, old(Now()), requested, scan, write)
    {
      var report := generation + 1;
      var scopes := CollapseScopes(c.root, requested);
      if scopes == [] {
        generation := report;
        return true;
      }
      if scan.None? {
        return false;
      }
      var Scan(disk, expected, policy) := scan.value;
      var previous, actual := Gather(store, disk, scopes);
      var events := WalkDiff(previous, actual, expected, c.eligible);
      var p := Pending(ReconcileKind, report, events + policy, actual, previous.Keys - actual.Keys);
      assert p == Freeze(c, Now(), scopes, scan.value);
      ok := DeliverAndCommit(p, write);
    }

    /** Keeps the frozen generation pending until it is delivered and written. */
    method DeliverAndCommit(p: Pending, write: Write) returns (ok: bool)
      requires Valid() && pending.None? && p.kind.ReconcileKind?
      modifies this, sink
      ensures Valid()
      ensures c.hasSink ==> (Now(), ok) == Complete(c, old(Now()).(pending := Some(p)), write)
      ensures !c.hasSink ==> ok == write.Written?
      ensures !c.hasSink ==> Now() == old(Now()).(
                store := if ok then Writes(old(store), p.puts, p.deletes)
                         else WritesAt(old(store), p.puts, p.deletes, write.done),
                generation := if ok then p.generation else old(generation))
    {
      if c.hasSink {
        pending := Some(p);
        ok := DeliverPending();
        if !ok {
          return;
        }
      }
      ok := Apply(p.puts, p.deletes, write);
      if !ok {
        return;
      }
      pending := None;
      generation := p.generation;
    }

    /** Checks file contents, after finishing what is pending.  `found` are the corrupt files. */
    method ScrubContents(found: Option<seq<Event>>, readable: Option<nat>, write: Write) returns (ok: bool)
      requires Valid()
      modifies this, sink
      ensures Valid()
      ensures Now() == Do(c, old(Now()), Scrub(found, readable, write))
      ensures ok == Answer(c, old(Now()), Scrub(found, readable, write))
    {
      if pending.Some? {
        if pending.value.kind.ReconcileKind? {
          ok := ResumePending(write);
          if !ok {
            return;
          }
        } else {
          ok := ResumePendingIntegrity();
          return;
        }
      }
      var report := generation + 1;
      if found.None? {
        return false;
      }
      if c.hasSink {
        var staged := ReadBack(found.value, readable);
        ok := DeliverAll(sink, c.session, report, c.limit, staged, readable.None?);
        if !ok {
          pending := Some(Pending(IntegrityKind, report, found.value, map[], {}));
          return;
        }
        if readable.Some? {
          return false;
        }
      }
      generation := report;
      ok := true;
    }
  }

  /** A pending integrity generation carries no writes. */
  predicate Writeless(pending: Option<Pending>) {
    pending.Some? && pending.value.kind.IntegrityKind? ==> pending.value.puts == map[] && pending.value.deletes == {}
  }

  /** What scanning one scope yields. */
  function ScanOf(disk: Tree, scope: Path): Tree {
    map p | p in disk && Scans(disk, scope, p) :: disk[p]
  }

  function StoredUnder(store: Tree, scope: Path): Tree {
    map p | p in store && Above(scope, p) :: store[p]
  }

  /** Walks the snapshot and then the disk, scope by scope. */
  method Gather(store: Tree, disk: Tree, scopes: seq<Path>) returns (previous: Tree, actual: Tree)
    ensures previous == Previous(store, disk, scopes)
    ensures actual == Actual(disk, scopes)
  {
    previous := WalkStored(store, scopes);
    actual := map[];
    for i := 0 to |scopes|
      invariant previous == UnderAny(store, scopes, |scopes|) - DirScopes(disk, scopes, i)
      invariant actual == ScanOfAny(disk, scopes, i)
    {
      var scope := scopes[i];
      ScanStep(disk, scopes, i);
      if scope in disk {
        if disk[scope].fileType == Directory {
          previous := previous - {scope};
        }
        actual := actual + ScanOf(disk, scope);
      }
    }
    GatheredAll(store, disk, scopes);
  }

  lemma ScanStep(disk: Tree, scopes: seq<Path>, i: nat)
    requires i < |scopes|
    ensures DirScopes(disk, scopes, i + 1) ==
              DirScopes(disk, scopes, i) + (if IsDir(disk, scopes[i]) then {scopes[i]} else {})
    ensures ScanOfAny(disk, scopes, i + 1) == ScanOfAny(disk, scopes, i) + ScanOf(disk, scopes[i])
    ensures scopes[i] !in disk ==> ScanOf(disk, scopes[i]) == map[]
  {}

  ghost function DirScopes(disk: Tree, scopes: seq<Path>, n: nat): set<Path>
    requires n <= |scopes|
  {
    set k | 0 <= k < n && IsDir(disk, scopes[k]) :: scopes[k]
  }

  lemma GatheredAll(store: Tree, disk: Tree, scopes: seq<Path>)
    ensures UnderAny(store, scopes, |scopes|) - DirScopes(disk, scopes, |scopes|) == Previous(store, disk, scopes)
    ensures ScanOfAny(disk, scopes, |scopes|) == Actual(disk, scopes)
  {
    forall p
      ensures p in UnderAny(store, scopes, |scopes|) <==> p in store && exists s | s in scopes :: Above(s, p)
    {}
    forall p
      ensures p in DirScopes(disk, scopes, |scopes|) <==> p in scopes && IsDir(disk, p)
    {}
    forall p
      ensures p in ScanOfAny(disk, scopes, |scopes|) <==> p in disk && exists s | s in scopes :: Scans(disk, s, p)
    {}
  }

  ghost function UnderAny(store: Tree, scopes: seq<Path>, n: nat): Tree
    requires n <= |scopes|
  {
    map p | p in store && (exists k | 0 <= k < n :: Above(scopes[k], p)) :: store[p]
  }

  ghost function ScanOfAny(disk: Tree, scopes: seq<Path>, n: nat): Tree
    requires n <= |scopes|
  {
    map p | p in disk && (exists k | 0 <= k < n :: Scans(disk, scopes[k], p)) :: disk[p]
  }

  method WalkStored(store: Tree, scopes: seq<Path>) returns (previous: Tree)
    ensures previous == UnderAny(store, scopes, |scopes|)
  {
    previous := map[];
    for i := 0 to |scopes|
      invariant previous == UnderAny(store, scopes, i)
    {
      previous := previous + StoredUnder(store, scopes[i]);
    }
  }
}
