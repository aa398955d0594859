/** The diff of the persistent fast path: one ordered pass over the actual entries, with
    identity indexes over all entries of both sides.  When does it report what the walk over
    shrinking maps reports? */
module BoltDiff {
  import opened Paths
  import opened Sorting
  import opened Entries
  import opened Diff

  /*** Specification ***/

  /** The pass takes `o` to have moved to the new path `q`: each is the only one of its whole
      side with that identity, and `o` was not met before. */
  ghost predicate BoltMove(previous: Tree, actual: Tree, o: Path, q: Path) {
    && q in actual && q !in previous && actual[q].id != ""
    && Sole(actual, actual[q].id, q)
    && Sole(previous, actual[q].id, o)
    && !(o in actual && PathLess(o, q))
  }

  ghost predicate BoltMovedFrom(previous: Tree, actual: Tree, o: Path) {
    exists q :: BoltMove(previous, actual, o, q)
  }

  /** What the pass reports at an actual path. */
  ghost function BoltOf(previous: Tree, actual: Tree): Path -> Option<Event> {
    p =>
      if p !in actual then None
      else if p in previous then SharedEvent(p, previous[p], actual[p])
      else if exists o :: BoltMove(previous, actual, o, p) then
        var o :| BoltMove(previous, actual, o, p);
        Some(Moved(p, o, previous[o], actual[p]))
      else Some(Created(p, actual[p]))
  }

  ghost function BoltGone(previous: Tree, actual: Tree): Path -> Option<Event> {
    o =>
      if o in previous && o !in actual && !BoltMovedFrom(previous, actual, o) then Some(Deleted(o, previous[o]))
      else None
  }

  ghost function BoltEvents(previous: Tree, actual: Tree): seq<Event> {
    Picks(SortedPaths(actual.Keys), BoltOf(previous, actual))
      + Picks(SortedPaths(previous.Keys), BoltGone(previous, actual))
  }

  /*** The pass ***/

  /** An identity bucket: an identity met on two paths is kept without a path. */
  type Bucket = map<string, Option<Path>>

  ghost predicate Indexes(bucket: Bucket, t: Tree) {
    && (forall id :: id in bucket <==> id != "" && exists p :: p in t && t[p].id == id)
    && (forall id, p | id in bucket && bucket[id] == Some(p) :: Sole(t, id, p))
    && (forall id, p | id != "" && Sole(t, id, p) :: id in bucket && bucket[id] == Some(p))
  }

  function IndexIdentity(bucket: Bucket, id: string, path: Path): Bucket {
    if id == "" then bucket
    else if id !in bucket then bucket[id := Some(path)]
    else if bucket[id] != Some(path) then bucket[id := None]
    else bucket
  }

  /** The bucket does not depend on the order in which entries arrive. */
  method IndexAll(t: Tree) returns (bucket: Bucket)
    ensures Indexes(bucket, t)
  {
    bucket := map[];
    var todo := t.Keys;
    while todo != {}
      invariant todo <= t.Keys && Indexes(bucket, t - todo)
      decreases |todo|
    {
      var p :| p in todo;
      IndexStep(bucket, t - todo, p, t[p]);
      OneEntryMore(t, todo, p);
      bucket := IndexIdentity(bucket, t[p].id, p);
      todo := todo - {p};
    }
    assert t - {} == t;
  }

  lemma OneEntryMore(t: Tree, todo: set<Path>, p: Path)
    requires p in todo && p in t
    ensures (t - todo)[p := t[p]] == t - (todo - {p})
  {}

  lemma IndexStep(bucket: Bucket, t: Tree, p: Path, m: Meta)
    requires Indexes(bucket, t) && p !in t
    ensures Indexes(IndexIdentity(bucket, m.id, p), t[p := m])
  {
    var b, t' := IndexIdentity(bucket, m.id, p), t[p := m];
    forall id
      ensures id in b <==> id != "" && exists q :: q in t' && t'[q].id == id
    {
      assert p in t' && t'[p].id == m.id;
      assert forall q | q in t :: q in t' && t'[q] == t[q];
    }
    forall id, q | id in b && b[id] == Some(q)
      ensures Sole(t', id, q)
    {
      assert id != m.id ==> Sole(t, id, q);
    }
    forall id, q | id != "" && Sole(t', id, q)
      ensures id in b && b[id] == Some(q)
    {
      assert forall r | r in t && t[r].id == id :: r in t' && t'[r].id == id;
      if q != p {
        assert t'[p].id == m.id;
        assert Sole(t, id, q);
      }
    }
  }

  method WalkBolt(previous: Tree, actual: Tree) returns (changes: seq<Event>)
    ensures changes == BoltEvents(previous, actual)
  {
    var previousIds := IndexAll(previous);
    var actualIds := IndexAll(actual);
    var paths := SortPaths(actual.Keys);
    ghost var move := MoveOf(previous, actual);
    ghost var f := BoltOf(previous, actual);
    SortedPathsOrdered(actual.Keys);
    PassFacts(previous, actual, previousIds, actualIds, paths);
    PassEventsAreExact(previous, actual, previousIds, actualIds, paths, move, f);
    var matched;
    changes, matched := WalkActual(previous, actual, previousIds, actualIds, paths, f);
    forall o
      ensures o in matched <==> Matched(previous, move, paths, |paths|, o)
    {
      MarksAreMatched(previous, actual, previousIds, actualIds, paths, move, f, |paths|, o);
    }
    MatchedAtEnd(previous, actual, paths, matched);
    var olds := SortPaths(previous.Keys);
    var gone := WalkPrevious(previous, matched, olds, BoltGone(previous, actual));
    changes := changes + gone;
  }

  ghost function MoveOf(previous: Tree, actual: Tree): (Path, Path) -> bool {
    (o, q) => BoltMove(previous, actual, o, q)
  }

  /** The paths marked as matched once the first `n` actual paths were visited. */
  ghost predicate Matched(previous: Tree, move: (Path, Path) -> bool, paths: seq<Path>, n: nat, o: Path)
    requires n <= |paths|
  {
    o in previous && exists k | 0 <= k < n :: paths[k] == o || move(o, paths[k])
  }

  /** The buckets name `o` and `q` for the identity of `q`. */
  ghost predicate Offered(previousIds: Bucket, actualIds: Bucket, id: string, o: Path, q: Path) {
    id in previousIds && previousIds[id] == Some(o) && id in actualIds && actualIds[id] == Some(q)
  }

  /** How the buckets, the relation `move` and the events `f` of one pass fit together. */
  ghost predicate Pass(previous: Tree, actual: Tree, previousIds: Bucket, actualIds: Bucket, paths: seq<Path>,
                       move: (Path, Path) -> bool, f: Path -> Option<Event>)
  {
    && (forall i | 0 <= i < |paths| :: paths[i] in actual)
    && (forall id | id in previousIds && previousIds[id].Some? :: previousIds[id].value in previous)
    && (forall o, q | q in previous :: !move(o, q))
    && (forall i, o | 0 <= i < |paths| && paths[i] !in previous ::
          move(o, paths[i]) <==>
            Offered(previousIds, actualIds, actual[paths[i]].id, o, paths[i]) && actual[paths[i]].id != ""
            && !Matched(previous, move, paths, i, o))
    && (forall p | p in actual && p in previous :: f(p) == SharedEvent(p, previous[p], actual[p]))
    && (forall o, q | q in actual && q !in previous && o in previous && move(o, q) ::
          f(q) == Some(Moved(q, o, previous[o], actual[q])))
    && (forall q | q in actual && q !in previous && (forall o :: !move(o, q)) :: f(q) == Some(Created(q, actual[q])))
  }

  /** The old path that the buckets offer for a new one, unless it is already matched. */
  function OldPath(previousIds: Bucket, actualIds: Bucket, id: string, path: Path, matched: set<Path>): Option<Path> {
    if id != "" && id in previousIds && previousIds[id].Some? && id in actualIds && actualIds[id] == Some(path)
       && previousIds[id].value !in matched
    then previousIds[id] else None
  }

  /** The marks after the first `n` paths. */
  ghost function Marks(previous: Tree, actual: Tree, previousIds: Bucket, actualIds: Bucket, paths: seq<Path>,
                       n: nat): set<Path>
    requires n <= |paths| && forall i | 0 <= i < |paths| :: paths[i] in actual
  {
    if n == 0 then {} else
      Mark(previous, actual, previousIds, actualIds, paths[n - 1],
           Marks(previous, actual, previousIds, actualIds, paths, n - 1))
  }

  /** The marks after one more path. */
  ghost function Mark(previous: Tree, actual: Tree, previousIds: Bucket, actualIds: Bucket, p: Path,
                      marks: set<Path>): set<Path>
    requires p in actual
  {
    if p in previous then marks + {p} else
      match OldPath(previousIds, actualIds, actual[p].id, p, marks)
      case Some(o) => marks + {o}
      case None => marks
  }

  lemma {:induction false} MarksAreMatched(previous: Tree, actual: Tree, previousIds: Bucket, actualIds: Bucket,
                                           paths: seq<Path>, move: (Path, Path) -> bool,
                                           f: Path -> Option<Event>, n: nat, o: Path)
    requires n <= |paths| && Pass(previous, actual, previousIds, actualIds, paths, move, f)
    ensures o in Marks(previous, actual, previousIds, actualIds, paths, n) <==> Matched(previous, move, paths, n, o)
  {
    if n > 0 {
      MarksAreMatched(previous, actual, previousIds, actualIds, paths, move, f, n - 1, o);
      var p := paths[n - 1];
      assert Matched(previous, move, paths, n, o) <==>
               Matched(previous, move, paths, n - 1, o) || (o in previous && (p == o || move(o, p)));
      if p !in previous {
        var marks := Marks(previous, actual, previousIds, actualIds, paths, n - 1);
        var offer := OldPath(previousIds, actualIds, actual[p].id, p, marks);
        if offer.Some? {
          MarksAreMatched(previous, actual, previousIds, actualIds, paths, move, f, n - 1, offer.value);
        }
        assert move(o, p) <==> Offered(previousIds, actualIds, actual[p].id, o, p) && actual[p].id != ""
                               && !Matched(previous, move, paths, n - 1, o);
      }
    }
  }

  ghost predicate FromTree(bucket: Bucket, t: Tree) {
    forall id | id in bucket && bucket[id].Some? :: bucket[id].value in t
  }

  /** What the pass emits at a path, given the marks so far. */
  ghost function PassEvent(previous: Tree, actual: Tree, previousIds: Bucket, actualIds: Bucket, p: Path,
                           marks: set<Path>): Option<Event>
    requires p in actual && FromTree(previousIds, previous)
  {
    if p in previous then SharedEvent(p, previous[p], actual[p]) else
      match OldPath(previousIds, actualIds, actual[p].id, p, marks)
      case Some(o) => Some(Moved(p, o, previous[o], actual[p]))
      case None => Some(Created(p, actual[p]))
  }

  lemma PassEventsAreExact(previous: Tree, actual: Tree, previousIds: Bucket, actualIds: Bucket, paths: seq<Path>,
                           move: (Path, Path) -> bool, f: Path -> Option<Event>)
    requires Pass(previous, actual, previousIds, actualIds, paths, move, f)
    ensures FromTree(previousIds, previous) && forall i | 0 <= i < |paths| :: paths[i] in actual
    ensures forall i | 0 <= i < |paths| ::
              f(paths[i]) == PassEvent(previous, actual, previousIds, actualIds, paths[i],
                                       Marks(previous, actual, previousIds, actualIds, paths, i))
  {
    forall i | 0 <= i < |paths|
      ensures f(paths[i]) == PassEvent(previous, actual, previousIds, actualIds, paths[i],
                                       Marks(previous, actual, previousIds, actualIds, paths, i))
    {
      var p, marks := paths[i], Marks(previous, actual, previousIds, actualIds, paths, i);
      if p !in previous {
        forall o
          ensures move(o, p) <==> OldPath(previousIds, actualIds, actual[p].id, p, marks) == Some(o)
        {
          MarksAreMatched(previous, actual, previousIds, actualIds, paths, move, f, i, o);
        }
      }
    }
  }

  method WalkActual(previous: Tree, actual: Tree, previousIds: Bucket, actualIds: Bucket, paths: seq<Path>,
                    ghost f: Path -> Option<Event>)
    returns (changes: seq<Event>, matched: set<Path>)
    requires FromTree(previousIds, previous) && forall i | 0 <= i < |paths| :: paths[i] in actual
    requires forall i | 0 <= i < |paths| ::
               f(paths[i]) == PassEvent(previous, actual, previousIds, actualIds, paths[i],
                                        Marks(previous, actual, previousIds, actualIds, paths, i))
    ensures changes == Picks(paths, f)
    ensures matched == Marks(previous, actual, previousIds, actualIds, paths, |paths|)
  {
    changes, matched := [], {};
    for i := 0 to |paths|
      invariant changes == PicksTo(paths, i, f)
      invariant matched == Marks(previous, actual, previousIds, actualIds, paths, i)
    {
      var event;
      event, matched := VisitActual(previous, actual, previousIds, actualIds, paths[i], matched);
      if event.Some? {
        changes := changes + [event.value];
      }
    }
  }

  method VisitActual(previous: Tree, actual: Tree, previousIds: Bucket, actualIds: Bucket, path: Path,
                     matched: set<Path>)
    returns (event: Option<Event>, matched': set<Path>)
    requires path in actual && FromTree(previousIds, previous)
    ensures event == PassEvent(previous, actual, previousIds, actualIds, path, matched)
    ensures matched' == Mark(previous, actual, previousIds, actualIds, path, matched)
  {
    var after := actual[path];
    if path in previous {
      return SharedEvent(path, previous[path], after), matched + {path};
    }
    match OldPath(previousIds, actualIds, after.id, path, matched)
    case Some(oldPath) =>
      return Some(Moved(path, oldPath, previous[oldPath], after)), matched + {oldPath};
    case None =>
      return Some(Created(path, after)), matched;
  }

  lemma BoltOfMoved(previous: Tree, actual: Tree, o: Path, q: Path)
    requires BoltMove(previous, actual, o, q)
    ensures BoltOf(previous, actual)(q) == Some(Moved(q, o, previous[o], actual[q]))
  {
    forall o' | BoltMove(previous, actual, o', q)
      ensures o' == o
    {}
  }

  lemma BoltOfCreated(previous: Tree, actual: Tree, q: Path)
    requires q in actual && q !in previous && forall o :: !BoltMove(previous, actual, o, q)
    ensures BoltOf(previous, actual)(q) == Some(Created(q, actual[q]))
  {}

  lemma PassFacts(previous: Tree, actual: Tree, previousIds: Bucket, actualIds: Bucket, paths: seq<Path>)
    requires Indexes(previousIds, previous) && Indexes(actualIds, actual)
    requires Ordered(paths, PathLess) && forall p :: p in paths <==> p in actual.Keys
    ensures Pass(previous, actual, previousIds, actualIds, paths, MoveOf(previous, actual), BoltOf(previous, actual))
  {
    var move, f := MoveOf(previous, actual), BoltOf(previous, actual);
    forall i, o | 0 <= i < |paths| && paths[i] !in previous
      ensures move(o, paths[i]) <==>
                Offered(previousIds, actualIds, actual[paths[i]].id, o, paths[i]) && actual[paths[i]].id != ""
                && !Matched(previous, move, paths, i, o)
    {
      MoveTest(previous, actual, previousIds, actualIds, paths, i, o);
    }
    forall id | id in previousIds && previousIds[id].Some?
      ensures previousIds[id].value in previous
    {
      assert Sole(previous, id, previousIds[id].value);
    }
    forall o, q | q in actual && q !in previous && o in previous && move(o, q)
      ensures f(q) == Some(Moved(q, o, previous[o], actual[q]))
    {
      BoltOfMoved(previous, actual, o, q);
    }
    forall q | q in actual && q !in previous && (forall o :: !move(o, q))
      ensures f(q) == Some(Created(q, actual[q]))
    {
      assert forall o :: !BoltMove(previous, actual, o, q) by {
        assert forall o :: move(o, q) <==> BoltMove(previous, actual, o, q);
      }
      BoltOfCreated(previous, actual, q);
    }
  }

  /** Asking the buckets and the marks is asking for a move. */
  lemma MoveTest(previous: Tree, actual: Tree, previousIds: Bucket, actualIds: Bucket, paths: seq<Path>, i: nat,
                 o: Path)
    requires Indexes(previousIds, previous) && Indexes(actualIds, actual)
    requires i < |paths| && Ordered(paths, PathLess) && forall p :: p in paths <==> p in actual.Keys
    requires paths[i] !in previous
    ensures BoltMove(previous, actual, o, paths[i]) <==>
              Offered(previousIds, actualIds, actual[paths[i]].id, o, paths[i]) && actual[paths[i]].id != ""
              && !Matched(previous, MoveOf(previous, actual), paths, i, o)
  {
    var q := paths[i];
    var id := actual[q].id;
    if id != "" && Sole(actual, id, q) && Sole(previous, id, o) {
      MetBefore(previous, actual, paths, i, o);
    }
  }

  /** The sole old carrier of the identity is marked exactly if it is still present and comes first. */
  lemma MetBefore(previous: Tree, actual: Tree, paths: seq<Path>, i: nat, o: Path)
    requires i < |paths| && Ordered(paths, PathLess) && forall p :: p in paths <==> p in actual.Keys
    requires paths[i] !in previous
    requires Sole(actual, actual[paths[i]].id, paths[i]) && Sole(previous, actual[paths[i]].id, o)
    ensures Matched(previous, MoveOf(previous, actual), paths, i, o) <==> o in actual && PathLess(o, paths[i])
  {
    var q := paths[i];
    if Matched(previous, MoveOf(previous, actual), paths, i, o) {
      var k :| 0 <= k < i && (paths[k] == o || BoltMove(previous, actual, o, paths[k]));
      var p := paths[k];
      IndexOrder(paths, k, i);
      assert p != o ==> p == q;
    }
    if o in actual && PathLess(o, q) {
      var k :| 0 <= k < |paths| && paths[k] == o;
      IndexOrder(paths, k, i);
    }
  }

  lemma IndexOrder(paths: seq<Path>, k: nat, i: nat)
    requires Ordered(paths, PathLess) && k < |paths| && i < |paths|
    ensures PathLess(paths[k], paths[i]) <==> k < i
    ensures paths[k] == paths[i] ==> k == i
  {
    var a, b := paths[k], paths[i];
    PathLessOrder(a, b);
    PathLessOrder(b, a);
    if i < k && PathLess(a, b) {
      PathLessTransitive(a, b, a);
    }
  }

  lemma MatchedAtEnd(previous: Tree, actual: Tree, paths: seq<Path>, matched: set<Path>)
    requires forall p :: p in paths <==> p in actual.Keys
    requires forall o :: o in matched <==> Matched(previous, MoveOf(previous, actual), paths, |paths|, o)
    ensures forall o | o in previous :: o in matched <==> BoltGone(previous, actual)(o).None?
  {
    forall o | o in previous
      ensures o in matched <==> o in actual || BoltMovedFrom(previous, actual, o)
    {
      if BoltMovedFrom(previous, actual, o) {
        var q :| BoltMove(previous, actual, o, q);
        assert q in paths;
      }
    }
  }

  method WalkPrevious(previous: Tree, matched: set<Path>, olds: seq<Path>, ghost f: Path -> Option<Event>)
    returns (gone: seq<Event>)
    requires forall o :: o in olds <==> o in previous.Keys
    requires forall o | o in previous :: f(o) == if o in matched then None else Some(Deleted(o, previous[o]))
    ensures gone == Picks(olds, f)
  {
    gone := [];
    for i := 0 to |olds|
      invariant gone == PicksTo(olds, i, f)
    {
      if olds[i] !in matched {
        gone := gone + [Deleted(olds[i], previous[olds[i]])];
      }
    }
  }

  /*** Comparison with the walk over shrinking maps ***/

  /** What must be true of the identities for both to agree.  A pair that the leftovers
      show as moved shares its identity with no path present on both sides; and the old
      path of a pair that is unique on both whole sides, if it is still present, comes
      before the new one. */
  ghost predicate IdentitiesAgree(previous: Tree, actual: Tree) {
    && (forall o, q, x | MovePair(previous, actual, o, q) && x in previous && x in actual ::
          previous[x].id != actual[q].id && actual[x].id != actual[q].id)
    && (forall o, q | o in previous && o in actual && q in actual && q !in previous && actual[q].id != ""
                      && Sole(previous, actual[q].id, o) && Sole(actual, actual[q].id, q) ::
          PathLess(o, q))
  }

  lemma AgreeingMoves(previous: Tree, actual: Tree, o: Path, q: Path)
    requires IdentitiesAgree(previous, actual)
    ensures MovePair(previous, actual, o, q) <==> BoltMove(previous, actual, o, q)
  {
    var leftPrevious, leftActual := Leftover(previous, actual), Leftover(actual, previous);
    if MovePair(previous, actual, o, q) {
      var id := actual[q].id;
      forall x | x in actual && actual[x].id == id
        ensures x == q
      {
        assert x !in previous ==> x in leftActual && leftActual[x].id == id;
      }
      forall x | x in previous && previous[x].id == id
        ensures x == o
      {
        assert x !in actual ==> x in leftPrevious && leftPrevious[x].id == id;
      }
    }
    if BoltMove(previous, actual, o, q) {
      var id := actual[q].id;
      assert o !in actual;
      assert Sole(leftActual, id, q) && Sole(leftPrevious, id, o);
    }
  }

  lemma OnlyIfIdentitiesAgree(previous: Tree, actual: Tree)
    requires forall o, q :: MovePair(previous, actual, o, q) <==> BoltMove(previous, actual, o, q)
    ensures IdentitiesAgree(previous, actual)
  {
    forall o, q, x | MovePair(previous, actual, o, q) && x in previous && x in actual
      ensures previous[x].id != actual[q].id && actual[x].id != actual[q].id
    {
      assert BoltMove(previous, actual, o, q);
    }
    forall o, q | o in previous && o in actual && q in actual && q !in previous && actual[q].id != ""
                  && Sole(previous, actual[q].id, o) && Sole(actual, actual[q].id, q)
      ensures PathLess(o, q)
    {
      assert !MovePair(previous, actual, o, q);
      assert !BoltMove(previous, actual, o, q);
    }
  }

  /** The events that are true by the standard of the pass. */
  ghost predicate BoltDescribes(previous: Tree, actual: Tree, e: Event) {
    match e
    case Created(q, after) =>
      q in actual && q !in previous && after == actual[q] && forall o :: !BoltMove(previous, actual, o, q)
    case Deleted(o, before) =>
      o in previous && o !in actual && before == previous[o] && !BoltMovedFrom(previous, actual, o)
    case Moved(q, o, before, after) => BoltMove(previous, actual, o, q) && before == previous[o] && after == actual[q]
    case Missing(_) => false
    case Orphan(_, _) => false
    case Invalid(_, _) => false
    case Corrupt(_, _) => false
    case _ => e.path in previous && e.path in actual && SharedEvent(e.path, previous[e.path], actual[e.path]) == Some(e)
  }

  lemma BoltActualPart(previous: Tree, actual: Tree, xs: seq<Path>, e: Event)
    requires forall p :: p in xs <==> p in actual.Keys
    ensures e in Picks(xs, BoltOf(previous, actual)) <==> !e.Deleted? && BoltDescribes(previous, actual, e)
  {
    var f := BoltOf(previous, actual);
    InPicks(xs, f, e);
    if e in Picks(xs, f) {
      var p :| p in xs && f(p) == Some(e);
      if p !in previous && exists o :: BoltMove(previous, actual, o, p) {
        var o :| BoltMove(previous, actual, o, p);
        BoltOfMoved(previous, actual, o, p);
      }
    }
    if !e.Deleted? && BoltDescribes(previous, actual, e) {
      if e.Moved? {
        BoltOfMoved(previous, actual, e.oldPath, e.path);
      } else if e.Created? {
        BoltOfCreated(previous, actual, e.path);
      }
      assert f(e.path) == Some(e);
    }
  }

  lemma BoltGonePart(previous: Tree, actual: Tree, xs: seq<Path>, e: Event)
    requires forall p :: p in xs <==> p in previous.Keys
    ensures e in Picks(xs, BoltGone(previous, actual)) <==> e.Deleted? && BoltDescribes(previous, actual, e)
  {
    InPicks(xs, BoltGone(previous, actual), e);
  }

  lemma BoltIsExact(previous: Tree, actual: Tree, e: Event)
    ensures e in BoltEvents(previous, actual) <==> BoltDescribes(previous, actual, e)
  {
    BoltActualPart(previous, actual, SortedPaths(actual.Keys), e);
    BoltGonePart(previous, actual, SortedPaths(previous.Keys), e);
  }

  lemma SameMovesSameEvents(previous: Tree, actual: Tree, e: Event)
    requires forall o, q :: MovePair(previous, actual, o, q) <==> BoltMove(previous, actual, o, q)
    ensures Describes(previous, actual, e) <==> BoltDescribes(previous, actual, e)
  {
    match e
    case Created(q, _) =>
      assert MovedTo(previous, actual, q) <==> exists o :: BoltMove(previous, actual, o, q);
    case Deleted(o, _) =>
      assert MovedFrom(previous, actual, o) <==> BoltMovedFrom(previous, actual, o);
    case _ =>
  }

  lemma SameEventsSameMoves(previous: Tree, actual: Tree, o: Path, q: Path)
    requires forall e :: Describes(previous, actual, e) <==> BoltDescribes(previous, actual, e)
    ensures MovePair(previous, actual, o, q) <==> BoltMove(previous, actual, o, q)
  {
    if o in previous && q in actual {
      var e := Moved(q, o, previous[o], actual[q]);
      assert Describes(previous, actual, e) <==> MovePair(previous, actual, o, q);
      assert BoltDescribes(previous, actual, e) <==> BoltMove(previous, actual, o, q);
    }
  }

  /*** Counting events ***/

  /** No two events are about the same path. */
  ghost predicate OncePerPath(es: seq<Event>) {
    forall i, j | 0 <= i < j < |es| :: es[i].path != es[j].path
  }

  lemma {:induction false} OnceIsOne(es: seq<Event>, e: Event)
    requires OncePerPath(es)
    ensures multiset(es)[e] == if e in es then 1 else 0
  {
    if es != [] {
      var n := |es| - 1;
      assert es == es[..n] + [es[n]];
      OnceIsOne(es[..n], e);
      assert e == es[n] ==> e !in es[..n];
    }
  }

  lemma {:induction false} NamedTwice(es: seq<Event>, p: Path, i: int, j: int)
    requires 0 <= i < j < |es| && p in es[i].Touches() && p in es[j].Touches()
    ensures Named(es, p) >= 2
  {
    if i == 0 {
      UnnamedIsUntouched(es[1..], p);
      assert es[1..][j - 1] in es[1..];
    } else {
      NamedTwice(es[1..], p, i - 1, j - 1);
    }
  }

  lemma NamedOnceMeansOncePerPath(es: seq<Event>)
    requires forall p :: Named(es, p) <= 1
    requires forall e | e in es :: e.path in e.Touches()
    ensures OncePerPath(es)
  {
    forall i, j | 0 <= i < j < |es|
      ensures es[i].path != es[j].path
    {
      assert es[i] in es && es[j] in es;
      if es[i].path == es[j].path {
        NamedTwice(es, es[i].path, i, j);
      }
    }
  }

  lemma StructureOncePerPath(previous: Tree, actual: Tree)
    ensures OncePerPath(Structure(previous, actual))
  {
    var es := Structure(previous, actual);
    forall p
      ensures Named(es, p) <= 1
    {
      Partition(previous, actual, p);
    }
    forall e | e in es
      ensures e.path in e.Touches()
    {
      StructureIsExact(previous, actual, e);
    }
    NamedOnceMeansOncePerPath(es);
  }

  lemma {:induction false} PicksOncePerPath(xs: seq<Path>, n: nat, f: Path -> Option<Event>)
    requires n <= |xs| && Distinct(xs)
    requires forall x | f(x).Some? :: f(x).value.path == x
    ensures OncePerPath(PicksTo(xs, n, f))
    ensures forall e | e in PicksTo(xs, n, f) :: exists i | 0 <= i < n :: xs[i] == e.path
  {
    if n > 0 {
      PicksOncePerPath(xs, n - 1, f);
      var es := PicksTo(xs, n - 1, f);
      assert forall k | 0 <= k < |es| :: es[k] in es;
    }
  }

  lemma BoltOncePerPath(previous: Tree, actual: Tree, xs: seq<Path>, ys: seq<Path>)
    requires Distinct(xs) && forall p :: p in xs <==> p in actual.Keys
    requires Distinct(ys)
    ensures OncePerPath(Picks(xs, BoltOf(previous, actual)) + Picks(ys, BoltGone(previous, actual)))
  {
    var f, g := BoltOf(previous, actual), BoltGone(previous, actual);
    PicksOncePerPath(xs, |xs|, f);
    PicksOncePerPath(ys, |ys|, g);
    var a, b := Picks(xs, f), Picks(ys, g);
    forall i, j | 0 <= i < |a| && 0 <= j < |b|
      ensures a[i].path != b[j].path
    {
      assert a[i] in a && b[j] in b;
      InPicks(ys, g, b[j]);
      var k :| 0 <= k < |xs| && xs[k] == a[i].path;
      assert xs[k] in xs;
    }
  }

  lemma SameMultisetIffSameEvents(a: seq<Event>, b: seq<Event>)
    requires OncePerPath(a) && OncePerPath(b)
    ensures multiset(a) == multiset(b) <==> forall e :: e in a <==> e in b
  {
    if multiset(a) == multiset(b) {
      forall e
        ensures e in a <==> e in b
      {
        assert e in a <==> e in multiset(a);
        assert e in b <==> e in multiset(b);
      }
    }
    if forall e :: e in a <==> e in b {
      forall e
        ensures multiset(a)[e] == multiset(b)[e]
      {
        OnceIsOne(a, e);
        OnceIsOne(b, e);
      }
    }
  }

  /** The persistent pass reports the same events as the generic walk, each equally often,
      exactly when the identities agree. */
  lemma BoltAgreesExactly(previous: Tree, actual: Tree)
    ensures multiset(BoltEvents(previous, actual)) == multiset(Structure(previous, actual)) <==>
              IdentitiesAgree(previous, actual)
  {
    StructureOncePerPath(previous, actual);
    SortedPathsDistinct(actual.Keys);
    SortedPathsDistinct(previous.Keys);
    BoltOncePerPath(previous, actual, SortedPaths(actual.Keys), SortedPaths(previous.Keys));
    forall e: Event
      ensures e in BoltEvents(previous, actual) <==> BoltDescribes(previous, actual, e)
      ensures e in Structure(previous, actual) <==> Describes(previous, actual, e)
    {
      BoltIsExact(previous, actual, e);
      StructureIsExact(previous, actual, e);
    }
    Agreement(previous, actual, BoltEvents(previous, actual), Structure(previous, actual));
  }

  lemma Agreement(previous: Tree, actual: Tree, a: seq<Event>, b: seq<Event>)
    requires OncePerPath(a) && OncePerPath(b)
    requires forall e :: e in a <==> BoltDescribes(previous, actual, e)
    requires forall e :: e in b <==> Describes(previous, actual, e)
    ensures multiset(a) == multiset(b) <==> IdentitiesAgree(previous, actual)
  {
    SameMultisetIffSameEvents(a, b);
    SameEventsIffIdentitiesAgree(previous, actual);
  }

  lemma SameEventsIffIdentitiesAgree(previous: Tree, actual: Tree)
    ensures (forall e :: BoltDescribes(previous, actual, e) <==> Describes(previous, actual, e)) <==>
              IdentitiesAgree(previous, actual)
  {
    if forall e :: BoltDescribes(previous, actual, e) <==> Describes(previous, actual, e) {
      forall o, q
        ensures MovePair(previous, actual, o, q) <==> BoltMove(previous, actual, o, q)
      {
        SameEventsSameMoves(previous, actual, o, q);
      }
      OnlyIfIdentitiesAgree(previous, actual);
    }
    if IdentitiesAgree(previous, actual) {
      forall o, q
        ensures MovePair(previous, actual, o, q) <==> BoltMove(previous, actual, o, q)
      {
        AgreeingMoves(previous, actual, o, q);
      }
      forall e
        ensures BoltDescribes(previous, actual, e) <==> Describes(previous, actual, e)
      {
        SameMovesSameEvents(previous, actual, e);
      }
    }
  }

  /** The usual case: no identity occurs twice on a side, and no new path carries the old
      identity of a path that is still present. */
  lemma UsualIdentitiesAgree(previous: Tree, actual: Tree)
    requires forall p, q | p in previous && q in previous && previous[p].id != "" && previous[p].id == previous[q].id ::
               p == q
    requires forall p, q | p in actual && q in actual && actual[p].id != "" && actual[p].id == actual[q].id ::
               p == q
    requires forall o, q | o in previous && o in actual && q in actual && q !in previous && actual[q].id != "" ::
               previous[o].id != actual[q].id
    ensures multiset(BoltEvents(previous, actual)) == multiset(Structure(previous, actual))
  {
    BoltAgreesExactly(previous, actual);
  }

  /** A file replaced at `b` while its old inode turns up at `a`: the pass reports both a move
      away from `b` and a replacement of `b`, the walk a creation and a replacement. */
  lemma BoltDiffers() returns (previous: Tree, actual: Tree)
    ensures multiset(BoltEvents(previous, actual)) != multiset(Structure(previous, actual))
  {
    var a: Path, b: Path := ["a"], ["b"];
    var one, two := Meta("1", Regular, 0, 0, 0), Meta("2", Regular, 0, 0, 0);
    previous, actual := map[b := one], map[a := one, b := two];
    assert a[0] != b[0];
    LaterName(a, b);
    ReusedIdentity(previous, actual, b, a);
    BoltAgreesExactly(previous, actual);
  }

  lemma ReusedIdentity(previous: Tree, actual: Tree, o: Path, q: Path)
    requires o in previous && o in actual && q in actual && q !in previous && actual[q].id != ""
    requires Sole(previous, actual[q].id, o) && Sole(actual, actual[q].id, q) && !PathLess(o, q)
    ensures !IdentitiesAgree(previous, actual)
  {}

  lemma LaterName(a: Path, b: Path)
    requires a == ["a"] && b == ["b"]
    ensures !PathLess(b, a)
  {
    assert a[1..] == [] && b[1..] == [] && Text([]) == "";
    assert Text(a) == "/" + a[0] + Text(a[1..]) && Text(b) == "/" + b[0] + Text(b[1..]);
    assert a[0] == "a" && b[0] == "b";
    var x, y := Render(a), Render(b);
    assert x == "/" + "a" && y == "/" + "b";
    assert x[0] == y[0] && x[1] == 'a' && y[1] == 'b';
    assert x[1..] == ['a'] && y[1..] == ['b'];
    assert !Less(y[1..], x[1..]);
  }
}
