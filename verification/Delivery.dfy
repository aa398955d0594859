/** Splitting a generation into batches and handing them to a sink that may refuse. */
module Delivery {
  import opened Entries

  datatype Batch = Batch(session: string, generation: nat, sequence: nat, final: bool, events: seq<Event>)

  /** How one call of the sink can end.  A sink that fails may or may not have
      taken notice of the batch. */
  datatype Outcome = Accepted | FailedUnseen | FailedSeen

  datatype Attempt = Attempt(batch: Batch, outcome: Outcome)

  /** The answer of the sink to its n-th call ever. */
  type Answers = nat -> Outcome

  /*** Specification ***/

  /** The batches of a generation from sequence number `sequence` on. */
  function Batches(session: string, generation: nat, events: seq<Event>, limit: nat, sequence: nat): seq<Batch>
    requires limit >= 1
    decreases |events|
  {
    if events == [] then
      []
    else if |events| <= limit then
      [Batch(session, generation, sequence, true, events)]
    else
      [Batch(session, generation, sequence, false, events[..limit])]
      + Batches(session, generation, events[limit..], limit, sequence + 1)
  }

  /** The calls made for `batches`, in order and up to the first refusal. */
  function Deliver(batches: seq<Batch>, log: seq<Attempt>, answers: Answers): (seq<Attempt>, bool)
    decreases |batches|
  {
    if batches == [] then (log, true) else
      var outcome := answers(|log|);
      var log' := log + [Attempt(batches[0], outcome)];
      if outcome.Accepted? then Deliver(batches[1..], log', answers) else (log', false)
  }

  /** The batches sent by adding events: without finishing, the last is still buffered. */
  function Sent(batches: seq<Batch>, finish: bool): seq<Batch> {
    if finish || batches == [] then batches else batches[..|batches| - 1]
  }

  function Flatten(batches: seq<Batch>): seq<Event> {
    if batches == [] then [] else batches[0].events + Flatten(batches[1..])
  }

  /** The batches concatenate to the events; all but the last hold exactly `limit`
      events, the last is not empty; sequence numbers count up, and only the last
      batch is final. */
  lemma {:induction false} BatchesAreExact(session: string, generation: nat, events: seq<Event>, limit: nat,
                                           sequence: nat)
    requires limit >= 1
    ensures var bs := Batches(session, generation, events, limit, sequence);
            && Flatten(bs) == events
            && (forall k | 0 <= k < |bs| ::
                  && bs[k].session == session && bs[k].generation == generation && bs[k].sequence == sequence + k
                  && bs[k].final == (k == |bs| - 1)
                  && (k < |bs| - 1 ==> |bs[k].events| == limit)
                  && 0 < |bs[k].events| <= limit)
    decreases |events|
  {
    var bs := Batches(session, generation, events, limit, sequence);
    if |events| > limit {
      BatchesAreExact(session, generation, events[limit..], limit, sequence + 1);
      assert events == events[..limit] + events[limit..];
      assert bs[1..] == Batches(session, generation, events[limit..], limit, sequence + 1);
    } else if events != [] {
      assert Flatten(bs) == bs[0].events + Flatten([]);
    }
  }

  /** The calls of one delivery: a prefix of the batches, all but the last accepted;
      delivery succeeds exactly if every batch was accepted. */
  lemma {:induction false} DeliverIsInOrder(batches: seq<Batch>, log: seq<Attempt>, answers: Answers)
    ensures var (log', ok) := Deliver(batches, log, answers);
            && log <= log' && |log'| <= |log| + |batches|
            && (forall i | |log| <= i < |log'| ::
                  && log'[i].batch == batches[i - |log|]
                  && log'[i].outcome == answers(i)
                  && (log'[i].outcome.Accepted? <==> ok || i < |log'| - 1))
            && (ok ==> |log'| == |log| + |batches|)
            && (!ok ==> |log'| > |log|)
    decreases |batches|
  {
    if batches != [] {
      var outcome := answers(|log|);
      var log1 := log + [Attempt(batches[0], outcome)];
      if outcome.Accepted? {
        DeliverIsInOrder(batches[1..], log1, answers);
      }
    }
  }

  /** A full buffer is the next batch as soon as there is more. */
  lemma FullBuffer(session: string, generation: nat, buffer: seq<Event>, rest: seq<Event>, limit: nat, sequence: nat,
                   finish: bool, log: seq<Attempt>, answers: Answers)
    requires limit >= 1 && |buffer| == limit && rest != []
    ensures var first := Attempt(Batch(session, generation, sequence, false, buffer), answers(|log|));
            Deliver(Sent(Batches(session, generation, buffer + rest, limit, sequence), finish), log, answers) ==
              if first.outcome.Accepted? then
                Deliver(Sent(Batches(session, generation, rest, limit, sequence + 1), finish), log + [first], answers)
              else
                (log + [first], false)
  {
    assert (buffer + rest)[..limit] == buffer && (buffer + rest)[limit..] == rest;
    var first := Batch(session, generation, sequence, false, buffer);
    var more := Batches(session, generation, rest, limit, sequence + 1);
    assert more != [];
    assert Batches(session, generation, buffer + rest, limit, sequence) == [first] + more;
    assert Sent([first] + more, finish)[1..] == Sent(more, finish);
  }

  /** What is sent of the first events alone is what is sent first of all events. */
  lemma {:induction false} EarlyBatches(session: string, generation: nat, events: seq<Event>, n: nat, limit: nat,
                                        sequence: nat)
    requires limit >= 1 && n <= |events|
    ensures Sent(Batches(session, generation, events[..n], limit, sequence), false)
         <= Batches(session, generation, events, limit, sequence)
    ensures Sent(Batches(session, generation, events[..n], limit, sequence), false) == [] <==> n <= limit
    decreases |events|
  {
    if n > limit {
      EarlyBatches(session, generation, events[limit..], n - limit, limit, sequence + 1);
      assert events[limit..][..n - limit] == events[..n][limit..];
      assert events[..n][..limit] == events[..limit];
    }
  }

  lemma DeliverOne(batch: Batch, log: seq<Attempt>, answers: Answers)
    ensures Deliver([batch], log, answers) == (log + [Attempt(batch, answers(|log|))], answers(|log|).Accepted?)
  {
    var log' := log + [Attempt(batch, answers(|log|))];
    assert Deliver([batch][1..], log', answers) == (log', true);
  }

  /*** The program ***/

  /** A change sink, as the tracker sees it: calls are recorded, answers are arbitrary. */
  class Sink {
    const answers: Answers
    var log: seq<Attempt>

    constructor (answers: Answers)
      ensures this.answers == answers && log == []
    {
      this.answers := answers;
      log := [];
    }

    method ApplyChanges(batch: Batch) returns (ok: bool)
      modifies this
      ensures log == old(log) + [Attempt(batch, answers(old(|log|)))]
      ensures ok == answers(old(|log|)).Accepted?
    {
      var outcome := answers(|log|);
      log := log + [Attempt(batch, outcome)];
      ok := outcome.Accepted?;
    }
  }

  class ChangeBatcher {
    const sink: Sink
    const session: string
    const generation: nat
    const limit: nat
    var sequence: nat
    var pending: seq<Event>

    ghost predicate Valid()
      reads this
    {
      limit >= 1 && |pending| <= limit
    }

    /** What is still to come of the delivery when `rest` is added and, if `finish`, the
        batcher is finished. */
    ghost function Outlook(rest: seq<Event>, finish: bool): (seq<Attempt>, bool)
      requires Valid()
      reads this, sink
    {
      Deliver(Sent(Batches(session, generation, pending + rest, limit, sequence), finish), sink.log, sink.answers)
    }

    constructor (sink: Sink, session: string, generation: nat, limit: nat)
      requires limit >= 1
      ensures Valid() && this.sink == sink && this.session == session && this.generation == generation
      ensures this.limit == limit && sequence == 0 && pending == []
    {
      this.sink := sink;
      this.session := session;
      this.generation := generation;
      this.limit := limit;
      sequence := 0;
      pending := [];
    }

    /** Buffers the event, after sending the buffer if it is full.  The outlook of the
        whole delivery does not depend on when events are added. */
    method Add(event: Event) returns (ok: bool)
      requires Valid()
      modifies this, sink
      ensures Valid()
      ensures ok ==> forall rest, finish :: Outlook(rest, finish) == old(Outlook([event] + rest, finish))
      ensures !ok ==> forall rest, finish :: (sink.log, false) == old(Outlook([event] + rest, finish))
      ensures !ok ==> sequence == old(sequence) && pending == old(pending)
    {
      forall rest: seq<Event>, finish | |pending| == limit {
        FullBuffer(session, generation, pending, [event] + rest, limit, sequence, finish, sink.log, sink.answers);
      }
      if |pending| == limit {
        ok := Flush(false);
        if !ok {
          return;
        }
        assert forall rest :: [] + ([event] + rest) == [event] + rest;
      }
      ghost var before := pending;
      pending := pending + [event];
      assert forall rest :: pending + rest == before + ([event] + rest);
      ok := true;
    }

    /** Adds the events one by one until one is refused. */
    method AddAll(events: seq<Event>) returns (ok: bool)
      requires Valid()
      modifies this, sink
      ensures Valid()
      ensures forall finish :: old(Outlook(events, finish)) == if ok then Outlook([], finish) else (sink.log, false)
    {
      assert events[0..] == events;
      for i := 0 to |events|
        invariant Valid()
        invariant forall finish :: Outlook(events[i..], finish) == old(Outlook(events, finish))
      {
        assert events[i..] == [events[i]] + events[i + 1..];
        ok := Add(events[i]);
        if !ok {
          return;
        }
      }
      assert events[|events|..] == [];
      ok := true;
    }

    /** Sends what is left, as the final batch; nothing at all if nothing is left. */
    method Finish() returns (ok: bool)
      requires Valid()
      modifies this, sink
      ensures (sink.log, ok) == old(Outlook([], true))
      ensures !ok ==> sequence == old(sequence) && pending == old(pending)
    {
      assert pending + [] == pending;
      if pending == [] {
        return true;
      }
      DeliverOne(Batch(session, generation, sequence, true, pending), sink.log, sink.answers);
      ok := Flush(true);
    }

    /** A refused batch leaves the buffer and the sequence number as they were. */
    method Flush(final: bool) returns (ok: bool)
      requires Valid()
      modifies this, sink
      ensures Valid()
      ensures sink.log == old(sink.log)
                + [Attempt(Batch(session, generation, old(sequence), final, old(pending)),
                           sink.answers(old(|sink.log|)))]
      ensures ok == sink.answers(old(|sink.log|)).Accepted?
      ensures ok ==> sequence == old(sequence) + 1 && pending == []
      ensures !ok ==> sequence == old(sequence) && pending == old(pending)
    {
      ok := sink.ApplyChanges(Batch(session, generation, sequence, final, pending));
      if ok {
        sequence := sequence + 1;
        pending := [];
      }
    }
  }

  /** Delivers a whole generation through a fresh batcher, or, if not `finish`, adds the
      events without finishing. */
  method DeliverAll(sink: Sink, session: string, generation: nat, limit: nat, events: seq<Event>, finish: bool)
    returns (ok: bool)
    requires limit >= 1
    modifies sink
    ensures (sink.log, ok) ==
              Deliver(Sent(Batches(session, generation, events, limit, 0), finish), old(sink.log), sink.answers)
  {
    var batcher := new ChangeBatcher(sink, session, generation, limit);
    assert [] + events == events;
    ghost var goal := batcher.Outlook(events, finish);
    ok := batcher.AddAll(events);
    assert goal == if ok then batcher.Outlook([], finish) else (sink.log, false);
    if ok {
      if finish {
        ok := batcher.Finish();
      } else {
        assert batcher.pending + [] == batcher.pending;
      }
    }
  }
}
