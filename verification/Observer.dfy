/** The observer's bounded buffer of hints between the notification collector and a consumer. */
module Observer {
  import opened Paths
  import opened Entries

  datatype HintScope = PathOnly | Subtree

  datatype Cause = NativeChange | Startup | Overflow | BackendStopped

  function Rank(c: Cause): nat {
    match c
    case NativeChange => 0
    case Startup => 1
    case Overflow => 2
    case BackendStopped => 3
  }

  function MergeHintCause(a: Cause, b: Cause): Cause {
    if Rank(b) > Rank(a) then b else a
  }

  datatype Hint = Hint(path: Path, scope: HintScope, cause: Cause)

  /** The buffer, and all hints sent so far. */
  datatype Buffer = Buffer(pending: map<Path, Hint>, rootPending: bool, rootHint: Hint, sent: seq<Hint>)

  datatype Limits = Limits(root: Path, maxPending: nat)

  /** One step: a hint arrives, or the buffer is flushed and the channel takes the hints at
      `taken`, in that order.  Of a pending root hint, any non-empty `taken` means that it was taken. */
  datatype Step = Arrive(hint: Hint) | Flush(taken: seq<Path>)

  function Escalate(l: Limits, b: Buffer, cause: Cause): Buffer {
    var merged := if b.rootPending then MergeHintCause(b.rootHint.cause, cause) else cause;
    b.(rootHint := Hint(l.root, Subtree, merged), rootPending := true, pending := map[])
  }

  function Enqueue(l: Limits, b: Buffer, h: Hint): Buffer {
    if h.scope.Subtree? && h.path == l.root then
      var merged := if b.rootPending then MergeHintCause(b.rootHint.cause, h.cause) else h.cause;
      b.(rootHint := h.(cause := merged), rootPending := true, pending := map[])
    else if b.rootPending then b
    else if h.path in b.pending then b
    else if |b.pending| >= l.maxPending then Escalate(l, b, NativeChange)
    else b.(pending := b.pending[h.path := h])
  }

  /** The hint at `p` goes to the channel. */
  function Send(b: Buffer, p: Path): Buffer {
    if p in b.pending then Buffer(b.pending - {p}, b.rootPending, b.rootHint, b.sent + [b.pending[p]]) else b
  }

  function SendAt(b: Buffer, taken: seq<Path>, n: nat): Buffer
    requires n <= |taken|
  {
    if n == 0 then b else Send(SendAt(b, taken, n - 1), taken[n - 1])
  }

  function Do(l: Limits, b: Buffer, step: Step): Buffer {
    match step
    case Arrive(h) => Enqueue(l, b, h)
    case Flush(taken) =>
      if !b.rootPending then SendAt(b, taken, |taken|)
      else if taken == [] then b
      else b.(rootPending := false, sent := b.sent + [b.rootHint])
  }

  function Run(l: Limits, b: Buffer, steps: seq<Step>, n: nat): Buffer
    requires n <= |steps|
  {
    if n == 0 then b else Do(l, Run(l, b, steps, n - 1), steps[n - 1])
  }

  /*** Bounds ***/

  ghost predicate Bounded(l: Limits, b: Buffer) {
    && |b.pending| <= l.maxPending
    && (b.rootPending ==> b.pending == map[] && b.rootHint.path == l.root && b.rootHint.scope.Subtree?)
    && (forall p | p in b.pending :: b.pending[p].path == p)
  }

  /** `b'` came out of `b` by sending some of the pending hints. */
  ghost predicate Sending(b: Buffer, b': Buffer) {
    && b'.pending.Keys <= b.pending.Keys && (forall p | p in b'.pending :: b'.pending[p] == b.pending[p])
    && b'.rootPending == b.rootPending && b'.rootHint == b.rootHint
    && b.sent <= b'.sent
    && (forall p | p in b.pending && p !in b'.pending :: b.pending[p] in b'.sent[|b.sent|..])
  }

  lemma SendingStep(b: Buffer, b1: Buffer, p: Path)
    requires Sending(b, b1)
    ensures Sending(b, Send(b1, p))
  {
    if p in b1.pending {
      var h := b1.pending[p];
      assert (b1.sent + [h])[|b.sent|..] == b1.sent[|b.sent|..] + [h];
    }
  }

  lemma {:induction false} SendingOnlyRemoves(b: Buffer, taken: seq<Path>, n: nat)
    requires n <= |taken|
    ensures Sending(b, SendAt(b, taken, n))
  {
    if n > 0 {
      SendingOnlyRemoves(b, taken, n - 1);
      SendingStep(b, SendAt(b, taken, n - 1), taken[n - 1]);
    }
  }

  lemma SmallerMap(a: map<Path, Hint>, b: map<Path, Hint>)
    requires a.Keys <= b.Keys
    ensures |a| <= |b|
  {
    var rest := b.Keys - a.Keys;
    assert b.Keys == a.Keys + rest;
  }

  lemma SizeWithout(m: map<Path, Hint>, p: Path)
    requires p in m
    ensures |m - {p}| == |m| - 1
  {
    assert (m - {p}).Keys == m.Keys - {p};
  }

  /** The buffer stays within its bound, a pending root hint leaves nothing else pending, and
      while it stays pending its cause never weakens. */
  lemma StepKeepsBounds(l: Limits, b: Buffer, step: Step)
    requires Bounded(l, b)
    ensures Bounded(l, Do(l, b, step))
    ensures b.rootPending && Do(l, b, step).rootPending ==>
              Rank(Do(l, b, step).rootHint.cause) >= Rank(b.rootHint.cause)
  {
    if step.Flush? && !b.rootPending {
      SendingOnlyRemoves(b, step.taken, |step.taken|);
      SmallerMap(Do(l, b, step).pending, b.pending);
    } else if step.Arrive? && !b.rootPending && step.hint.path !in b.pending {
      assert |b.pending[step.hint.path := step.hint]| == |b.pending| + 1;
    }
  }

  /*** Coverage ***/

  /** What a consumer looks at again because of the hint. */
  predicate Reaches(h: Hint, p: Path, wholly: bool) {
    (h.scope.Subtree? && Above(h.path, p)) || (!wholly && h.path == p)
  }

  /** A pending hint will make the consumer look at the path again; `wholly`, at all below it too. */
  ghost predicate Awaited(b: Buffer, p: Path, wholly: bool) {
    || (b.rootPending && Reaches(b.rootHint, p, wholly))
    || exists q :: q in b.pending && Reaches(b.pending[q], p, wholly)
  }

  /** Some hint sent from position `from` on reaches the path. */
  ghost predicate Announced(b: Buffer, from: nat, p: Path, wholly: bool) {
    exists i | from <= i < |b.sent| :: Reaches(b.sent[i], p, wholly)
  }

  lemma StepKeepsCoverage(l: Limits, b: Buffer, step: Step, p: Path, wholly: bool)
    requires Bounded(l, b) && Above(l.root, p) && Awaited(b, p, wholly)
    ensures b.sent <= Do(l, b, step).sent
    ensures Awaited(Do(l, b, step), p, wholly) || Announced(Do(l, b, step), |b.sent|, p, wholly)
  {
    var b' := Do(l, b, step);
    if b.rootPending {
      if step.Flush? && step.taken != [] {
        assert b'.sent[|b.sent|] == b.rootHint;
      }
    } else {
      var q :| q in b.pending && Reaches(b.pending[q], p, wholly);
      if step.Flush? {
        SendingOnlyRemoves(b, step.taken, |step.taken|);
        if q !in b'.pending {
          var tail := b'.sent[|b.sent|..];
          var i :| 0 <= i < |tail| && tail[i] == b.pending[q];
          assert b'.sent[|b.sent| + i] == b.pending[q];
        }
      } else if q in b'.pending {
        assert b'.pending[q] == b.pending[q];
      }
    }
  }

  lemma StepOnlySends(l: Limits, b: Buffer, step: Step)
    ensures b.sent <= Do(l, b, step).sent
  {
    if step.Flush? && !b.rootPending {
      SendingOnlyRemoves(b, step.taken, |step.taken|);
    }
  }

  /** Over every run: what a pending hint reaches stays reached by a pending hint or by one sent
      since. */
  lemma {:induction false} CoverageLasts(l: Limits, b: Buffer, steps: seq<Step>, n: nat, p: Path, wholly: bool)
    requires n <= |steps|
    requires Bounded(l, b) && Above(l.root, p) && Awaited(b, p, wholly)
    ensures var b' := Run(l, b, steps, n);
            Bounded(l, b') && b.sent <= b'.sent && (Awaited(b', p, wholly) || Announced(b', |b.sent|, p, wholly))
  {
    if n > 0 {
      CoverageLasts(l, b, steps, n - 1, p, wholly);
      var b1, b' := Run(l, b, steps, n - 1), Run(l, b, steps, n);
      StepKeepsBounds(l, b1, steps[n - 1]);
      StepOnlySends(l, b1, steps[n - 1]);
      if Awaited(b1, p, wholly) {
        StepKeepsCoverage(l, b1, steps[n - 1], p, wholly);
      } else {
        var i :| |b.sent| <= i < |b1.sent| && Reaches(b1.sent[i], p, wholly);
        assert b'.sent[i] == b1.sent[i];
      }
    }
  }

  /** An arriving hint is awaited at once, as far as its own path goes. */
  lemma ArrivalIsAwaited(l: Limits, b: Buffer, h: Hint)
    requires Bounded(l, b) && Above(l.root, h.path)
    ensures Awaited(Enqueue(l, b, h), h.path, false)
  {
    var b' := Enqueue(l, b, h);
    if !b'.rootPending {
      assert h.path in b'.pending && b'.pending[h.path].path == h.path;
      assert Reaches(b'.pending[h.path], h.path, false);
    }
  }

  /** The stronger of two causes. */
  function Stronger(a: Cause, b: Cause): Cause {
    if a.BackendStopped? || b.BackendStopped? then BackendStopped
    else if a.Overflow? || b.Overflow? then Overflow
    else if a.Startup? || b.Startup? then Startup
    else NativeChange
  }

  /** What an arrival does to the buffer.  A hint for the whole root becomes the root hint, with the
      stronger cause if one is pending; behind a pending root hint nothing else changes anything;
      a hint for a path becomes pending as it is, unless one for that path is; and if there is no
      room for it, a fresh root hint takes the place of all. */
  lemma ArrivalExactly(l: Limits, b: Buffer, h: Hint)
    ensures var b' := Enqueue(l, b, h);
            && b'.sent == b.sent
            && (h.scope.Subtree? && h.path == l.root ==>
                  && b'.rootPending && b'.pending == map[]
                  && b'.rootHint == Hint(l.root, Subtree,
                                         if b.rootPending then Stronger(b.rootHint.cause, h.cause) else h.cause))
            && (!(h.scope.Subtree? && h.path == l.root) ==>
                  if b.rootPending || h.path in b.pending then b' == b
                  else if |b.pending| < l.maxPending then
                    && !b'.rootPending && b'.pending.Keys == b.pending.Keys + {h.path} && b'.pending[h.path] == h
                    && forall p | p in b.pending :: b'.pending[p] == b.pending[p]
                  else b'.rootPending && b'.pending == map[] && b'.rootHint == Hint(l.root, Subtree, NativeChange))
  {}

  /** A subtree hint is dropped for a path hint that is already pending for the same path. */
  ghost predicate Shadowed(l: Limits, b: Buffer, h: Hint) {
    && h.path != l.root && !b.rootPending
    && h.path in b.pending && b.pending[h.path].scope.PathOnly?
    && !Awaited(b, h.path, true)
  }

  /** The subtree of an arriving subtree hint is awaited exactly if the hint is not shadowed. */
  lemma SubtreeArrivalExactly(l: Limits, b: Buffer, h: Hint)
    requires Bounded(l, b) && Above(l.root, h.path) && h.scope.Subtree?
    ensures Awaited(Enqueue(l, b, h), h.path, true) <==> !Shadowed(l, b, h)
  {
    var b' := Enqueue(l, b, h);
    assert Above(h.path, h.path);
    if !b'.rootPending && !Shadowed(l, b, h) && h.path !in b.pending {
      assert Reaches(b'.pending[h.path], h.path, true);
    }
    if !b'.rootPending && h.path in b.pending && b.pending[h.path].scope.Subtree? {
      assert Reaches(b'.pending[h.path], h.path, true);
    }
  }

  lemma SubtreeHintIsLost(l: Limits, d: Path) returns (b: Buffer, h: Hint)
    requires l.maxPending >= 1 && Above(l.root, d) && d != l.root
    ensures Bounded(l, b) && h == Hint(d, Subtree, NativeChange) && !Awaited(Enqueue(l, b, h), d, true)
  {
    var first := Hint(d, PathOnly, NativeChange);
    b := Buffer(map[d := first], false, first, []);
    h := Hint(d, Subtree, NativeChange);
  }

  /*** The program ***/

  class HintBuffer {
    const limits: Limits
    const capacity: nat
    var pending: map<Path, Hint>
    var rootPending: bool
    var rootHint: Hint
    /** The channel to the consumer, and everything ever put into it. */
    var channel: seq<Hint>
    ghost var sent: seq<Hint>

    ghost function Now(): Buffer
      reads this
    {
      Buffer(pending, rootPending, rootHint, sent)
    }

    ghost predicate Valid()
      reads this
    {
      && Bounded(limits, Now())
      && |channel| <= capacity && |channel| <= |sent| && channel == sent[|sent| - |channel|..]
    }

    constructor (limits: Limits, capacity: nat)
      ensures Valid() && this.limits == limits && this.capacity == capacity
      ensures pending == map[] && !rootPending && channel == [] && sent == []
    {
      this.limits := limits;
      this.capacity := capacity;
      pending, rootPending, rootHint := map[], false, Hint(limits.root, Subtree, NativeChange);
      channel, sent := [], [];
    }

    method EscalateRoot(cause: Cause)
      modifies this`rootHint, this`rootPending, this`pending
      ensures Now() == Escalate(limits, old(Now()), cause)
    {
      var h := Hint(limits.root, Subtree, cause);
      if rootPending {
        h := h.(cause := MergeHintCause(rootHint.cause, cause));
      }
      rootHint := h;
      rootPending := true;
      pending := map[];
    }

    method Enqueue(h: Hint)
      requires Valid()
      modifies this
      ensures Valid() && channel == old(channel)
      ensures Now() == Do(limits, old(Now()), Arrive(h))
    {
      StepKeepsBounds(limits, Now(), Arrive(h));
      if h.scope.Subtree? && h.path == limits.root {
        var cause := if rootPending then MergeHintCause(rootHint.cause, h.cause) else h.cause;
        rootHint := h.(cause := cause);
        rootPending := true;
        pending := map[];
        return;
      }
      if rootPending {
        return;
      }
      if h.path in pending {
        return;
      }
      if |pending| >= limits.maxPending {
        EscalateRoot(NativeChange);
        return;
      }
      pending := pending[h.path := h];
    }

    method TrySend(h: Hint) returns (ok: bool)
      modifies this`channel, this`sent
      ensures ok == (old(|channel|) < capacity)
      ensures ok ==> channel == old(channel) + [h] && sent == old(sent) + [h]
      ensures !ok ==> channel == old(channel) && sent == old(sent)
    {
      ok := |channel| < capacity;
      if ok {
        channel := channel + [h];
        sent := sent + [h];
      }
    }

    /** Sends what the channel has room for; what it refuses stays pending. */
    method Flush() returns (ghost taken: seq<Path>)
      requires Valid()
      modifies this
      ensures Valid() && Now() == Do(limits, old(Now()), Step.Flush(taken))
      ensures rootPending || pending != map[] ==> |channel| == capacity
    {
      taken := [];
      if rootPending {
        var ok := TrySend(rootHint);
        if ok {
          rootPending := false;
          taken := [limits.root];
        }
        return;
      }
      taken := FlushPending();
    }

    method SendOne(path: Path) returns (ok: bool)
      requires Valid() && path in pending
      modifies this`pending, this`channel, this`sent
      ensures Valid()
      ensures ok ==> Now() == Send(old(Now()), path) && |pending| < old(|pending|)
      ensures !ok ==> Now() == old(Now()) && |channel| == capacity
    {
      ok := TrySend(pending[path]);
      if ok {
        SizeWithout(pending, path);
        pending := pending - {path};
      }
    }

    method FlushPending() returns (ghost taken: seq<Path>)
      requires Valid() && !rootPending
      modifies this`pending, this`channel, this`sent
      ensures Valid() && Now() == SendAt(old(Now()), taken, |taken|)
      ensures pending == map[] || |channel| == capacity
    {
      taken := [];
      while pending != map[]
        invariant Valid() && Now() == SendAt(old(Now()), taken, |taken|)
        decreases |pending|
      {
        var path :| path in pending;
        var ok := SendOne(path);
        if !ok {
          break;
        }
        SendOneMore(old(Now()), taken, path);
        taken := taken + [path];
      }
    }

    /** The consumer takes the oldest hint. */
    method Receive() returns (h: Option<Hint>)
      requires Valid()
      modifies this`channel
      ensures Valid() && Now() == old(Now())
      ensures old(channel) == [] ==> h == None && channel == []
      ensures old(channel) != [] ==> h == Some(old(channel)[0]) && channel == old(channel)[1..]
    {
      if channel == [] {
        return None;
      }
      h := Some(channel[0]);
      channel := channel[1..];
    }
  }

  lemma SendOneMore(b: Buffer, taken: seq<Path>, p: Path)
    ensures SendAt(b, taken + [p], |taken| + 1) == Send(SendAt(b, taken, |taken|), p)
  {
    SendPrefix(b, taken, [p], |taken|);
  }

  lemma {:induction false} SendPrefix(b: Buffer, taken: seq<Path>, more: seq<Path>, n: nat)
    requires n <= |taken|
    ensures SendAt(b, taken + more, n) == SendAt(b, taken, n)
  {
    if n > 0 {
      SendPrefix(b, taken, more, n - 1);
    }
  }
}
