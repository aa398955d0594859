/** What the sink receives for a generation, and in which order. */
module Outbox {
  import opened Paths
  import opened Entries
  import opened Diff
  import opened Delivery
  import opened Scopes
  import opened Protocol
  import opened Kinds

  /** The events of all calls of the sink from call number `i` on. */
  function Received(log: seq<Attempt>, i: nat): seq<Event>
    requires i <= |log|
    decreases |log| - i
  {
    if i == |log| then [] else log[i].batch.events + Received(log, i + 1)
  }

  lemma {:induction false} ReceivedIsFlat(bs: seq<Batch>, log: seq<Attempt>, answers: Answers)
    ensures var (log', ok) := Deliver(bs, log, answers);
            log <= log' && (ok ==> Received(log', |log|) == Flatten(bs))
    decreases |bs|
  {
    if bs != [] {
      var a := Attempt(bs[0], answers(|log|));
      if a.outcome.Accepted? {
        ReceivedIsFlat(bs[1..], log + [a], answers);
        var log' := Deliver(bs[1..], log + [a], answers).0;
        assert log'[|log|] == (log + [a])[|log|] == a;
      }
    }
  }

  /** A delivery that succeeds has handed over all events, in order. */
  lemma DeliveredIsReceived(c: Config, p: Pending, log: seq<Attempt>)
    requires c.Valid()
    ensures var (log', ok) := Deliver(BatchesOf(c, p), log, c.answers);
            |log| <= |log'| && (ok ==> Received(log', |log|) == p.events)
  {
    NumberedBatches(c, p);
    ReceivedIsFlat(BatchesOf(c, p), log, c.answers);
  }

  /** A resumed generation that completes hands over what was frozen. */
  lemma ResumedIsReceived(c: Config, s: State, write: Write)
    requires c.Valid() && s.pending.Some?
    ensures var (s', ok) := Complete(c, s, write);
            |s.log| <= |s'.log| && (ok ==> Received(s'.log, |s.log|) == s.pending.value.events)
  {
    DeliveredIsReceived(c, s.pending.value, s.log);
  }

  /** What a reconciliation of its own hands over if it completes, and freezes if it does not:
      first every event that is true of the compared entries and of the expected ones, each once,
      and then the policy events, as they came. */
  lemma ReconciliationReports(c: Config, s: State, requested: seq<Path>, scan: Scan, write: Write)
    returns (front: seq<Event>)
    requires c.Valid() && c.hasSink && s.pending.None? && requested != []
    ensures var scopes := Collapse(c.root, requested, |requested|);
            ExactEvents(front, Previous(s.store, scan.disk, scopes), Actual(scan.disk, scopes),
                        scan.expected, c.eligible)
    ensures var (s', ok) := Fresh(c, s, requested, Some(scan), write);
            && |s.log| <= |s'.log|
            && (ok ==> Received(s'.log, |s.log|) == front + scan.policy)
            && (!ok ==> s'.pending.Some? && s'.pending.value.events == front + scan.policy)
  {
    var scopes := Collapse(c.root, requested, |requested|);
    CollapseNotEmpty(c.root, requested);
    var previous, puts := Previous(s.store, scan.disk, scopes), Actual(scan.disk, scopes);
    front := Structure(previous, puts) + Judgement(puts, scan.expected, c.eligible);
    DiffIsExact(previous, puts, scan.expected, c.eligible);
    ResumedIsReceived(c, s.(pending := Some(Freeze(c, s, scopes, scan))), write);
  }

  /** A scrub of its own hands over what it found, or freezes it. */
  lemma ScrubReports(c: Config, s: State, found: seq<Event>)
    requires c.Valid() && c.hasSink && s.pending.None?
    ensures var (s', ok) := FreshScrub(c, s, Some(found), None);
            && |s.log| <= |s'.log|
            && (ok ==> Received(s'.log, |s.log|) == found)
            && (!ok ==> s'.pending.Some? && s'.pending.value.events == found)
  {
    ScrubBatchesArePrefix(c, FreezeScrub(s, found), None);
    DeliveredIsReceived(c, FreezeScrub(s, found), s.log);
  }
}
