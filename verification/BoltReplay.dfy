/** What a consumer makes of the persistent diff's events, in the order in which the pass stages
    them.  A move takes its old path away; if a file is there again, a later event has to say so. */
module BoltReplay {
  import opened Paths
  import opened Sorting
  import opened Entries
  import opened Diff
  import opened BoltDiff

  /** A path that is still there is reported as moved away, and nothing is reported of it after
      that.  (Its identity has then become unknown, see `OnlyWithoutIdentity`.) */
  ghost predicate Vanishes(previous: Tree, actual: Tree, x: Path) {
    && x in previous && x in actual && BoltMovedFrom(previous, actual, x)
    && SharedEvent(x, previous[x], actual[x]).None?
  }

  /** Only a path that lost its identity, and nothing else, can vanish. */
  lemma OnlyWithoutIdentity(previous: Tree, actual: Tree, x: Path)
    requires Vanishes(previous, actual, x)
    ensures actual[x].id == "" && previous[x].id != "" && Vis(previous[x]) == Vis(actual[x])
  {
    var q :| BoltMove(previous, actual, x, q);
  }

  /*** Replaying, at one path ***/

  /** If all events that touch a path leave it the same way, that is how it ends up. */
  lemma {:induction false} ReplayAtPath(v: View, es: seq<Event>, goal: Option<Visible>, x: Path)
    requires forall e | e in es && x in e.Touches() :: At(Step(map[], e), x) == goal
    ensures At(Replay(v, es), x) == if Named(es, x) == 0 then At(v, x) else goal
    decreases |es|
  {
    if es != [] {
      var e := es[0];
      assert es == [e] + es[1..];
      ReplayAtPath(Step(v, e), es[1..], goal, x);
      if x in e.Touches() {
        assert At(Step(v, e), x) == At(Step(map[], e), x);
      } else {
        assert At(Step(v, e), x) == At(v, x);
      }
    }
  }

  /** From position `j` on, nothing touches the path. */
  lemma {:induction false} UntouchedFrom(v: View, xs: seq<Path>, j: nat, n: nat, f: Path -> Option<Event>, x: Path)
    requires j <= n <= |xs|
    requires forall i | j <= i < n && f(xs[i]).Some? :: x !in f(xs[i]).value.Touches()
    ensures At(Replay(v, PicksTo(xs, n, f)), x) == At(Replay(v, PicksTo(xs, j, f)), x)
    decreases n
  {
    if n > j {
      UntouchedFrom(v, xs, j, n - 1, f, x);
      assert f(xs[n - 1]).Some? ==> x !in f(xs[n - 1]).value.Touches();
      LastPick(v, xs, n, f, x);
    }
  }

  /** What the element at `n - 1` contributes. */
  lemma LastPick(v: View, xs: seq<Path>, n: nat, f: Path -> Option<Event>, x: Path)
    requires 0 < n <= |xs|
    ensures f(xs[n - 1]).None? || x !in f(xs[n - 1]).value.Touches() ==>
              At(Replay(v, PicksTo(xs, n, f)), x) == At(Replay(v, PicksTo(xs, n - 1, f)), x)
    ensures f(xs[n - 1]).Some? && x in f(xs[n - 1]).value.Touches() ==>
              At(Replay(v, PicksTo(xs, n, f)), x) == At(Step(map[], f(xs[n - 1]).value), x)
  {
    var init := PicksTo(xs, n - 1, f);
    if f(xs[n - 1]).Some? {
      var e := f(xs[n - 1]).value;
      ReplayConcat(v, init, [e]);
      assert Replay(Replay(v, init), [e]) == Step(Replay(v, init), e);
      if x in e.Touches() {
        assert At(Step(Replay(v, init), e), x) == At(Step(map[], e), x);
      }
    } else {
      assert PicksTo(xs, n, f) == init;
    }
  }

  /*** Paths that are still there ***/

  /** How the events of the pass over `xs` relate to the path `x` at position `j`. */
  ghost predicate Around(previous: Tree, actual: Tree, xs: seq<Path>, f: Path -> Option<Event>, j: nat) {
    && j < |xs| && xs[j] in actual
    && (f(xs[j]).None? ==> xs[j] in previous && Vis(previous[xs[j]]) == Vis(actual[xs[j]]))
    && (f(xs[j]).Some? ==> xs[j] in f(xs[j]).value.Touches()
                           && At(Step(map[], f(xs[j]).value), xs[j]) == Some(Vis(actual[xs[j]])))
    && (forall i | 0 <= i < |xs| && i != j && f(xs[i]).Some? && xs[j] in f(xs[i]).value.Touches() ::
          i < j && At(Step(map[], f(xs[i]).value), xs[j]) == None)
  }

  /** The path ends up as it is, unless it is taken away and nothing is said of it afterwards. */
  lemma ReplayAround(previous: Tree, actual: Tree, xs: seq<Path>, f: Path -> Option<Event>, j: nat)
    requires Around(previous, actual, xs, f, j)
    ensures var x := xs[j];
            At(Replay(ViewOf(previous), Picks(xs, f)), x) == Some(Vis(actual[x])) <==>
              f(x).Some? || forall i | 0 <= i < j && f(xs[i]).Some? :: x !in f(xs[i]).value.Touches()
  {
    var x, v := xs[j], ViewOf(previous);
    UntouchedFrom(v, xs, j + 1, |xs|, f, x);
    LastPick(v, xs, j + 1, f, x);
    var before := PicksTo(xs, j, f);
    forall e
      ensures e in before <==> exists i | 0 <= i < j :: f(xs[i]) == Some(e)
    {
      InPicksTo(xs, j, f, e);
    }
    ReplayAtPath(v, before, None, x);
    UnnamedIsUntouched(before, x);
  }

  lemma PassIsAround(previous: Tree, actual: Tree, xs: seq<Path>, j: nat)
    requires Ordered(xs, PathLess) && (forall p :: p in xs <==> p in actual.Keys) && j < |xs|
    ensures Around(previous, actual, xs, BoltOf(previous, actual), j)
  {
    var f, x := BoltOf(previous, actual), xs[j];
    assert x in xs;
    forall i | 0 <= i < |xs| && i != j && f(xs[i]).Some? && x in f(xs[i]).value.Touches()
      ensures i < j && At(Step(map[], f(xs[i]).value), x) == None
    {
      assert xs[i] in xs;
      TakenAwayBefore(previous, actual, xs, i, j);
    }
    OwnEvent(previous, actual, x);
  }

  /** The event at a path, if there is one, leaves it as it is; if there is none, it was so before. */
  lemma OwnEvent(previous: Tree, actual: Tree, x: Path)
    requires x in actual
    ensures var event := BoltOf(previous, actual)(x);
            && (event.None? ==> x in previous && Vis(previous[x]) == Vis(actual[x]))
            && (event.Some? ==> x in event.value.Touches() && At(Step(map[], event.value), x) == Some(Vis(actual[x])))
  {
    if x in previous {
      assert BoltOf(previous, actual)(x) == SharedEvent(x, previous[x], actual[x]);
    } else if exists o :: BoltMove(previous, actual, o, x) {
      var o :| BoltMove(previous, actual, o, x);
      BoltOfMoved(previous, actual, o, x);
    } else {
      BoltOfCreated(previous, actual, x);
    }
  }

  /** A path that is still there is touched at another one only by a move away from it, and that
      other one comes first. */
  lemma TakenAwayBefore(previous: Tree, actual: Tree, xs: seq<Path>, i: nat, j: nat)
    requires Ordered(xs, PathLess) && i < |xs| && j < |xs| && i != j && xs[i] in actual && xs[j] in actual
    requires var e := BoltOf(previous, actual)(xs[i]); e.Some? && xs[j] in e.value.Touches()
    ensures i < j && BoltMove(previous, actual, xs[j], xs[i])
    ensures BoltOf(previous, actual)(xs[i]) == Some(Moved(xs[i], xs[j], previous[xs[j]], actual[xs[i]]))
  {
    IndexOrder(xs, i, j);
    IndexOrder(xs, j, i);
    var q := xs[i];
    assert q !in previous;
    assert exists o :: BoltMove(previous, actual, o, q);
    var o :| BoltMove(previous, actual, o, q);
    BoltOfMoved(previous, actual, o, q);
  }

  /** At a path that is still there. */
  lemma PresentPath(previous: Tree, actual: Tree, xs: seq<Path>, x: Path)
    requires Ordered(xs, PathLess) && (forall p :: p in xs <==> p in actual.Keys) && x in actual
    ensures At(Replay(ViewOf(previous), Picks(xs, BoltOf(previous, actual))), x) == At(ViewOf(actual), x) <==>
              !Vanishes(previous, actual, x)
  {
    var f := BoltOf(previous, actual);
    assert x in xs;
    var j :| 0 <= j < |xs| && xs[j] == x;
    PassIsAround(previous, actual, xs, j);
    ReplayAround(previous, actual, xs, f, j);
    if i :| 0 <= i < j && f(xs[i]).Some? && x in f(xs[i]).value.Touches() {
      assert xs[i] in xs;
      TakenAwayBefore(previous, actual, xs, i, j);
    }
    if BoltMovedFrom(previous, actual, x) {
      var q :| BoltMove(previous, actual, x, q);
      BoltOfMoved(previous, actual, x, q);
      assert q in xs;
      var i :| 0 <= i < |xs| && xs[i] == q;
      assert x in f(xs[i]).value.Touches();
    }
  }

  /*** Paths that are gone or never were ***/

  lemma AbsentPath(previous: Tree, actual: Tree, es: seq<Event>, x: Path)
    requires x !in actual && forall e :: e in es <==> BoltDescribes(previous, actual, e)
    ensures At(Replay(ViewOf(previous), es), x) == None
  {
    forall e | e in es && x in e.Touches()
      ensures At(Step(map[], e), x) == None
    {}
    ReplayAtPath(ViewOf(previous), es, None, x);
    UnnamedIsUntouched(es, x);
    if x in previous {
      var e := Farewell(previous, actual, x);
      assert e in es;
    }
  }

  /** Of a path that is gone, a deletion or a move away tells. */
  lemma Farewell(previous: Tree, actual: Tree, x: Path) returns (e: Event)
    requires x in previous && x !in actual
    ensures BoltDescribes(previous, actual, e) && x in e.Touches()
  {
    if BoltMovedFrom(previous, actual, x) {
      var q :| BoltMove(previous, actual, x, q);
      e := Moved(q, x, previous[x], actual[q]);
    } else {
      e := Deleted(x, previous[x]);
    }
  }

  /** The deletions at the end do not touch what is still there. */
  lemma DeletionsKeep(v: View, previous: Tree, actual: Tree, ys: seq<Path>, x: Path)
    requires x in actual
    ensures At(Replay(v, Picks(ys, BoltGone(previous, actual))), x) == At(v, x)
  {
    var g := BoltGone(previous, actual);
    forall e | e in Picks(ys, g)
      ensures x !in e.Touches()
    {
      InPicks(ys, g, e);
    }
    ReplayAtPath(v, Picks(ys, g), None, x);
    UnnamedIsUntouched(Picks(ys, g), x);
  }

  /*** The whole pass ***/

  lemma ReplayOfPass(previous: Tree, actual: Tree, xs: seq<Path>, ys: seq<Path>)
    requires Ordered(xs, PathLess) && forall p :: p in xs <==> p in actual.Keys
    requires forall p :: p in ys <==> p in previous.Keys
    ensures Replay(ViewOf(previous), Picks(xs, BoltOf(previous, actual)) + Picks(ys, BoltGone(previous, actual)))
              == ViewOf(actual) <==>
            forall x | x in actual :: !Vanishes(previous, actual, x)
  {
    var v, a, b := ViewOf(previous), Picks(xs, BoltOf(previous, actual)), Picks(ys, BoltGone(previous, actual));
    ReplayConcat(v, a, b);
    var end := Replay(v, a + b);
    forall e
      ensures e in a + b <==> BoltDescribes(previous, actual, e)
    {
      BoltActualPart(previous, actual, xs, e);
      BoltGonePart(previous, actual, ys, e);
    }
    forall x
      ensures x !in actual ==> At(end, x) == None
      ensures x in actual ==> (At(end, x) == At(ViewOf(actual), x) <==> !Vanishes(previous, actual, x))
    {
      if x in actual {
        DeletionsKeep(Replay(v, a), previous, actual, ys, x);
        PresentPath(previous, actual, xs, x);
      } else {
        AbsentPath(previous, actual, a + b, x);
      }
    }
    SameView(end, ViewOf(actual));
  }

  lemma SameView(a: View, b: View)
    ensures a == b <==> forall x :: At(a, x) == At(b, x)
  {
    if forall x :: At(a, x) == At(b, x) {
      forall x
        ensures (x in a <==> x in b) && (x in a ==> a[x] == b[x])
      {
        assert At(a, x) == At(b, x);
      }
    }
  }

  /** Replaying what the persistent diff reports, in its order, leads from the old view to the new
      one exactly if no path vanishes. */
  lemma BoltReplayReachesActual(previous: Tree, actual: Tree)
    ensures Replay(ViewOf(previous), BoltEvents(previous, actual)) == ViewOf(actual) <==>
              forall x | x in actual :: !Vanishes(previous, actual, x)
  {
    SortedPathsOrdered(actual.Keys);
    ReplayOfPass(previous, actual, SortedPaths(actual.Keys), SortedPaths(previous.Keys));
  }

  /** A file `b` whose identity can no longer be told, while a new file `a` has the old one. */
  lemma BoltReplayLosesFile() returns (previous: Tree, actual: Tree)
    ensures Replay(ViewOf(previous), BoltEvents(previous, actual)) != ViewOf(actual)
  {
    var a: Path, b: Path := ["a"], ["b"];
    var one, none := Meta("1", Regular, 0, 0, 0), Meta("", Regular, 0, 0, 0);
    previous, actual := map[b := one], map[a := one, b := none];
    LaterName(a, b);
    assert BoltMove(previous, actual, b, a);
    assert Vanishes(previous, actual, b);
    BoltReplayReachesActual(previous, actual);
  }
}
