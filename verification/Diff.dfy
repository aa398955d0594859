/** The semantic diff between a previous and an actual tree. */
module Diff {
  import opened Paths
  import opened Sorting
  import opened Entries

  /** Optional constraints on an expected path. */
  datatype Expected = Expected(fileType: Option<FileType>, size: Option<int>)

  type Manifest = map<Path, Expected>

  predicate SameIdentity(a: Meta, b: Meta) {
    a.id == "" || b.id == "" || a.id == b.id
  }

  predicate ContentChanged(a: Meta, b: Meta) {
    a.fileType != b.fileType || a.size != b.size || a.mtime != b.mtime
  }

  /** What, if anything, is reported about a path present on both sides. */
  function SharedEvent(p: Path, before: Meta, after: Meta): Option<Event> {
    if !SameIdentity(before, after) then Some(Replaced(p, before, after))
    else if ContentChanged(before, after) then Some(Modified(p, before, after))
    else if before.mode != after.mode then Some(AttributeChanged(p, before, after))
    else None
  }

  predicate Satisfies(m: Meta, e: Expected) {
    (e.fileType == None || m.fileType == e.fileType.value) && (e.size == None || m.size == e.size.value)
  }

  /** What is reported about an expected path. */
  function ExpectedEvent(p: Path, e: Expected, actual: Tree): Option<Event> {
    if p !in actual then Some(Missing(p))
    else if !Satisfies(actual[p], e) then Some(Invalid(p, actual[p]))
    else None
  }

  /*** Specification ***/

  /** `p` is the only path of `t` with the identity `id`. */
  ghost predicate Sole(t: Tree, id: string, p: Path) {
    p in t && t[p].id == id && forall q | q in t && t[q].id == id :: q == p
  }

  /** The entries of `t` whose path `other` does not have. */
  function Leftover(t: Tree, other: Tree): Tree {
    t - other.Keys
  }

  /** The file at `o` moved to `q`: among the paths that one side lacks, both carry
      the same non-empty identity and nothing else does. */
  ghost predicate MovePair(previous: Tree, actual: Tree, o: Path, q: Path) {
    && Sole(Leftover(actual, previous), if q in actual then actual[q].id else "", q)
    && actual[q].id != ""
    && Sole(Leftover(previous, actual), actual[q].id, o)
  }

  ghost predicate MovedTo(previous: Tree, actual: Tree, q: Path) {
    exists o :: MovePair(previous, actual, o, q)
  }

  ghost predicate MovedFrom(previous: Tree, actual: Tree, o: Path) {
    exists q :: MovePair(previous, actual, o, q)
  }

  ghost function CreatedPaths(previous: Tree, actual: Tree): set<Path> {
    set q | q in actual && q !in previous && !MovedTo(previous, actual, q)
  }

  ghost function DeletedPaths(previous: Tree, actual: Tree): set<Path> {
    set o | o in previous && o !in actual && !MovedFrom(previous, actual, o)
  }

  ghost function MovedPaths(previous: Tree, actual: Tree): set<Path> {
    set q | q in actual && MovedTo(previous, actual, q)
  }

  ghost function MovedIds(previous: Tree, actual: Tree): set<string> {
    set q | q in MovedPaths(previous, actual) :: actual[q].id
  }

  /** The events that `f` finds for the first `n` elements of `xs`, in their order. */
  ghost function PicksTo<T>(xs: seq<T>, n: nat, f: T -> Option<Event>): seq<Event>
    requires n <= |xs|
  {
    if n == 0 then [] else
      PicksTo(xs, n - 1, f) + (match f(xs[n - 1]) case Some(e) => [e] case None => [])
  }

  ghost function Picks<T>(xs: seq<T>, f: T -> Option<Event>): seq<Event> {
    PicksTo(xs, |xs|, f)
  }

  function SharedOf(previous: Tree, actual: Tree): Path -> Option<Event> {
    p => if p in previous && p in actual then SharedEvent(p, previous[p], actual[p]) else None
  }

  ghost function MovedOf(previous: Tree, actual: Tree): string -> Option<Event> {
    id =>
      if exists o, q :: MovePair(previous, actual, o, q) && actual[q].id == id then
        var o, q :| MovePair(previous, actual, o, q) && actual[q].id == id;
        Some(Moved(q, o, previous[o], actual[q]))
      else
        None
  }

  function CreatedOf(actual: Tree): Path -> Option<Event> {
    p => if p in actual then Some(Created(p, actual[p])) else None
  }

  function DeletedOf(previous: Tree): Path -> Option<Event> {
    p => if p in previous then Some(Deleted(p, previous[p])) else None
  }

  function ExpectedOf(manifest: Manifest, actual: Tree): Path -> Option<Event> {
    p => if p in manifest then ExpectedEvent(p, manifest[p], actual) else None
  }

  function OrphanOf(manifest: Manifest, actual: Tree, eligible: Meta -> bool): Path -> Option<Event> {
    p => if p in actual && p !in manifest && eligible(actual[p]) then Some(Orphan(p, actual[p])) else None
  }

  /** The structural part: changes of shared paths, moves, creations, deletions. */
  ghost function Structure(previous: Tree, actual: Tree): seq<Event> {
    Picks(SortedPaths(actual.Keys), SharedOf(previous, actual))
    + Picks(SortedIds(MovedIds(previous, actual)), MovedOf(previous, actual))
    + Picks(SortedPaths(CreatedPaths(previous, actual)), CreatedOf(actual))
    + Picks(SortedPaths(DeletedPaths(previous, actual)), DeletedOf(previous))
  }

  /** The part that compares the actual tree with the expected one. */
  ghost function Judgement(actual: Tree, expected: Option<Manifest>, eligible: Meta -> bool): seq<Event> {
    match expected
    case None => []
    case Some(manifest) =>
      Picks(SortedPaths(manifest.Keys), ExpectedOf(manifest, actual))
      + Picks(SortedPaths(actual.Keys), OrphanOf(manifest, actual, eligible))
  }

  /*** Facts about picking ***/

  lemma {:induction false} InPicksTo<T>(xs: seq<T>, n: nat, f: T -> Option<Event>, e: Event)
    requires n <= |xs|
    ensures e in PicksTo(xs, n, f) <==> exists i | 0 <= i < n :: f(xs[i]) == Some(e)
  {
    if n > 0 {
      InPicksTo(xs, n - 1, f, e);
    }
  }

  lemma InPicks<T>(xs: seq<T>, f: T -> Option<Event>, e: Event)
    ensures e in Picks(xs, f) <==> exists x | x in xs :: f(x) == Some(e)
  {
    InPicksTo(xs, |xs|, f, e);
    if e in Picks(xs, f) {
      var i :| 0 <= i < |xs| && f(xs[i]) == Some(e);
      assert xs[i] in xs;
    }
  }

  /** A path is named once when exactly one element yields an event that touches it. */
  lemma {:induction false} NamedInPicksTo<T>(xs: seq<T>, n: nat, f: T -> Option<Event>, p: Path, k: nat)
    requires k < n <= |xs| && f(xs[k]).Some? && p in f(xs[k]).value.Touches()
    requires forall i | 0 <= i < n && i != k && f(xs[i]).Some? :: p !in f(xs[i]).value.Touches()
    ensures Named(PicksTo(xs, n, f), p) == 1
  {
    var init := PicksTo(xs, n - 1, f);
    if k == n - 1 {
      NamedConcat(init, [f(xs[k]).value], p);
      NotNamedInPicksTo(xs, n - 1, f, p);
    } else {
      NamedInPicksTo(xs, n - 1, f, p, k);
      NamedConcat(init, match f(xs[n - 1]) case Some(e) => [e] case None => [], p);
    }
  }

  lemma NotNamedInPicksTo<T>(xs: seq<T>, n: nat, f: T -> Option<Event>, p: Path)
    requires n <= |xs|
    requires forall i | 0 <= i < n && f(xs[i]).Some? :: p !in f(xs[i]).value.Touches()
    ensures Named(PicksTo(xs, n, f), p) == 0
  {
    UnnamedIsUntouched(PicksTo(xs, n, f), p);
    forall e | e in PicksTo(xs, n, f)
      ensures p !in e.Touches()
    {
      InPicksTo(xs, n, f, e);
    }
  }

  /*** The walk over shrinking maps ***/

  /** Maps each non-empty identity that exactly one path carries to that path,
      whatever order the entries come in. */
  method IndexUniqueIds(states: Tree) returns (result: map<string, Path>)
    ensures forall id :: id in result <==> id != "" && exists p :: Sole(states, id, p)
    ensures forall id | id in result :: Sole(states, id, result[id])
  {
    result := map[];
    var duplicates: set<string> := {};
    var todo := states.Keys;
    while todo != {}
      invariant todo <= states.Keys
      invariant forall id | id in result ::
                  id != "" && result[id] in states && result[id] !in todo && states[result[id]].id == id
      invariant forall p | p in states && p !in todo && states[p].id != "" :: states[p].id in result
      invariant forall p | p in states && p !in todo && states[p].id != "" ::
                  p != result[states[p].id] ==> states[p].id in duplicates
      invariant forall id | id in duplicates ::
                  id in result && exists p :: p in states && p !in todo && states[p].id == id && p != result[id]
      decreases |todo|
    {
      var p :| p in todo;
      todo := todo - {p};
      var id := states[p].id;
      if id != "" {
        if id in result {
          duplicates := duplicates + {id};
        } else {
          result := result[id := p];
        }
      }
    }
    ghost var first := result;
    result := result - duplicates;
    forall id | id in result
      ensures Sole(states, id, result[id])
    {}
    forall id, p | id != "" && Sole(states, id, p)
      ensures id in result
    {
      assert states[p].id in first;
    }
  }

  /** Streams the changes in stable order. */
  method WalkDiff(previous: Tree, actual: Tree, expected: Option<Manifest>, eligible: Meta -> bool)
    returns (changes: seq<Event>)
    ensures changes == Structure(previous, actual) + Judgement(actual, expected, eligible)
  {
    changes := WalkStructure(previous, actual);
    if expected.Some? {
      var judged := WalkPaths(expected.value.Keys, ExpectedOf(expected.value, actual));
      var orphans := WalkPaths(actual.Keys, OrphanOf(expected.value, actual, eligible));
      changes := changes + (judged + orphans);
    }
  }

  method WalkStructure(previous: Tree, actual: Tree) returns (changes: seq<Event>)
    ensures changes == Structure(previous, actual)
  {
    var paths := SortPaths(actual.Keys);
    var remainingPrevious, remainingActual;
    changes, remainingPrevious, remainingActual := WalkShared(previous, actual, paths);
    var moves, restPrevious, restActual := WalkLeftovers(previous, actual, remainingPrevious, remainingActual);
    var creations := WalkPaths(restActual.Keys, CreatedOf(actual));
    var deletions := WalkPaths(restPrevious.Keys, DeletedOf(previous));
    changes := changes + moves + creations + deletions;
  }

  /** Pairs the leftovers by identity and takes the pairs out of both maps. */
  method WalkLeftovers(previous: Tree, actual: Tree, leftPrevious: Tree, leftActual: Tree)
    returns (moves: seq<Event>, restPrevious: Tree, restActual: Tree)
    requires leftPrevious == Leftover(previous, actual) && leftActual == Leftover(actual, previous)
    ensures moves == Picks(SortedIds(MovedIds(previous, actual)), MovedOf(previous, actual))
    ensures restPrevious.Keys == DeletedPaths(previous, actual)
    ensures restActual.Keys == CreatedPaths(previous, actual)
  {
    var prevIds := IndexUniqueIds(leftPrevious);
    var actualIds := IndexUniqueIds(leftActual);
    PairedIds(previous, actual, prevIds, actualIds);
    PairedMoves(previous, actual, prevIds, actualIds);
    var ids := SortIds(actualIds.Keys);
    moves, restPrevious, restActual :=
      WalkMoves(leftPrevious, leftActual, prevIds, actualIds, ids, MovedOf(previous, actual));
    PicksOfPairs(previous, actual, prevIds, actualIds);
    UnpairedPaths(previous, actual, prevIds, actualIds);
  }

  /** Compares the paths present on both sides and takes them out of the remaining maps. */
  method WalkShared(previous: Tree, actual: Tree, paths: seq<Path>)
    returns (changes: seq<Event>, remainingPrevious: Tree, remainingActual: Tree)
    requires forall p :: p in paths <==> p in actual.Keys
    ensures changes == Picks(paths, SharedOf(previous, actual))
    ensures remainingPrevious == Leftover(previous, actual)
    ensures remainingActual == Leftover(actual, previous)
  {
    changes := [];
    remainingPrevious, remainingActual := previous, actual;
    ghost var f := SharedOf(previous, actual);
    ghost var visited: set<Path> := {};
    for i := 0 to |paths|
      invariant changes == PicksTo(paths, i, f)
      invariant forall j | 0 <= j < i :: paths[j] in visited
      invariant visited <= actual.Keys
      invariant remainingPrevious == previous - visited
      invariant remainingActual == actual - (visited * previous.Keys)
    {
      var path := paths[i];
      visited := visited + {path};
      if path in previous {
        var before, after := previous[path], actual[path];
        remainingPrevious := remainingPrevious - {path};
        remainingActual := remainingActual - {path};
        if !SameIdentity(before, after) {
          changes := changes + [Replaced(path, before, after)];
        } else if ContentChanged(before, after) {
          changes := changes + [Modified(path, before, after)];
        } else if before.mode != after.mode {
          changes := changes + [AttributeChanged(path, before, after)];
        }
      }
    }
    assert visited == actual.Keys;
  }

  /** One of the loops that visit paths in order and emit what `f` says of each. */
  method WalkPaths(paths: set<Path>, f: Path -> Option<Event>) returns (events: seq<Event>)
    ensures events == Picks(SortedPaths(paths), f)
  {
    var xs := SortPaths(paths);
    events := EmitAll(xs, f);
  }

  method EmitAll(xs: seq<Path>, f: Path -> Option<Event>) returns (events: seq<Event>)
    ensures events == Picks(xs, f)
  {
    events := [];
    for i := 0 to |xs|
      invariant events == PicksTo(xs, i, f)
    {
      match f(xs[i])
      case Some(e) => events := events + [e];
      case None =>
    }
  }

  /** Takes the leftovers that pair up by identity out of both maps. */
  method WalkMoves(leftPrevious: Tree, leftActual: Tree,
                   prevIds: map<string, Path>, actualIds: map<string, Path>, ids: seq<string>,
                   ghost f: string -> Option<Event>)
    returns (moves: seq<Event>, restPrevious: Tree, restActual: Tree)
    requires forall id | id in prevIds :: id != "" && prevIds[id] in leftPrevious
    requires forall id | id in actualIds :: actualIds[id] in leftActual
    requires forall id :: id in ids <==> id in actualIds
    requires forall id | id in actualIds :: f(id) ==
               if id in prevIds then
                 Some(Moved(actualIds[id], prevIds[id], leftPrevious[prevIds[id]], leftActual[actualIds[id]]))
               else None
    ensures moves == Picks(ids, f)
    ensures restPrevious == leftPrevious - Paired(prevIds, actualIds.Keys)
    ensures restActual == leftActual - Paired(actualIds, prevIds.Keys)
  {
    moves, restPrevious, restActual := [], leftPrevious, leftActual;
    for i := 0 to |ids|
      invariant moves == PicksTo(ids, i, f)
      invariant restPrevious == Unpaired(leftPrevious, prevIds, ids, i, prevIds.Keys)
      invariant restActual == Unpaired(leftActual, actualIds, ids, i, prevIds.Keys)
    {
      var id := ids[i];
      if id in prevIds && id != "" {
        var oldPath, newPath := prevIds[id], actualIds[id];
        moves := moves + [Moved(newPath, oldPath, leftPrevious[oldPath], leftActual[newPath])];
        restPrevious := restPrevious - {oldPath};
        restActual := restActual - {newPath};
      }
    }
    UnpairedAll(leftPrevious, prevIds, ids, |ids|, prevIds.Keys);
    UnpairedAll(leftActual, actualIds, ids, |ids|, prevIds.Keys);
    assert Paired(prevIds, Elements(ids[..|ids|]) * prevIds.Keys) == Paired(prevIds, actualIds.Keys);
    assert Paired(actualIds, Elements(ids[..|ids|]) * prevIds.Keys) == Paired(actualIds, prevIds.Keys);
  }

  /** What is left once the first `n` identities, as far as they are among `both`, were taken out. */
  ghost function Unpaired(left: Tree, index: map<string, Path>, ids: seq<string>, n: nat, both: set<string>): Tree
    requires n <= |ids|
  {
    if n == 0 then left else
      var rest, id := Unpaired(left, index, ids, n - 1, both), ids[n - 1];
      if id in both && id in index then rest - {index[id]} else rest
  }

  lemma {:induction false} UnpairedAll(left: Tree, index: map<string, Path>, ids: seq<string>, n: nat,
                                       both: set<string>)
    requires n <= |ids|
    ensures Unpaired(left, index, ids, n, both) == left - Paired(index, Elements(ids[..n]) * both)
  {
    if n > 0 {
      UnpairedAll(left, index, ids, n - 1, both);
      var id, before := ids[n - 1], Elements(ids[..n - 1]) * both;
      assert ids[..n] == ids[..n - 1] + [id];
      PairedStep(index, before, id);
      assert Elements(ids[..n]) * both == before + (if id in both then {id} else {});
    }
  }

  ghost function Paired(index: map<string, Path>, ids: set<string>): set<Path> {
    set id | id in ids && id in index :: index[id]
  }

  lemma PairedStep(index: map<string, Path>, ids: set<string>, id: string)
    ensures Paired(index, ids + {id}) == Paired(index, ids) + (if id in index then {index[id]} else {})
  {}

  lemma MovesById(previous: Tree, actual: Tree, id: string)
    ensures MovedOf(previous, actual)(id).Some? <==> id in MovedIds(previous, actual)
  {
    if MovedOf(previous, actual)(id).Some? {
      var o, q :| MovePair(previous, actual, o, q) && actual[q].id == id;
      assert MovedTo(previous, actual, q) && q in MovedPaths(previous, actual);
    }
    if id in MovedIds(previous, actual) {
      var q :| q in MovedPaths(previous, actual) && actual[q].id == id;
      var o :| MovePair(previous, actual, o, q);
    }
  }

  /** Identities without a counterpart contribute nothing. */
  lemma PicksOfPairs(previous: Tree, actual: Tree, prevIds: map<string, Path>, actualIds: map<string, Path>)
    requires forall id :: id in MovedIds(previous, actual) <==> id in prevIds && id in actualIds
    ensures Picks(SortedIds(actualIds.Keys), MovedOf(previous, actual))
         == Picks(SortedIds(MovedIds(previous, actual)), MovedOf(previous, actual))
  {
    var f := MovedOf(previous, actual);
    var ids := SortedIds(actualIds.Keys);
    SortedIdsOrdered(actualIds.Keys);
    forall id
      ensures f(id).Some? <==> id in MovedIds(previous, actual)
    {
      MovesById(previous, actual, id);
    }
    var kept := Keep(ids, |ids|, f);
    KeepOrdered(ids, |ids|, f, Less);
    KeepPicks(ids, |ids|, f);
    forall id
      ensures id in kept <==> id in MovedIds(previous, actual)
    {
      InKeep(ids, |ids|, f, id);
    }
    SortedIdsUnique(kept, MovedIds(previous, actual));
  }

  /** The first `n` elements, without those for which `f` finds no event. */
  ghost function Keep(xs: seq<string>, n: nat, f: string -> Option<Event>): seq<string>
    requires n <= |xs|
  {
    if n == 0 then [] else Keep(xs, n - 1, f) + if f(xs[n - 1]).Some? then [xs[n - 1]] else []
  }

  lemma {:induction false} InKeep(xs: seq<string>, n: nat, f: string -> Option<Event>, x: string)
    requires n <= |xs|
    ensures x in Keep(xs, n, f) <==> f(x).Some? && exists i | 0 <= i < n :: xs[i] == x
  {
    if n > 0 {
      InKeep(xs, n - 1, f, x);
    }
  }

  lemma {:induction false} KeepOrdered(xs: seq<string>, n: nat, f: string -> Option<Event>,
                                       lt: (string, string) -> bool)
    requires n <= |xs| && Ordered(xs, lt)
    ensures Ordered(Keep(xs, n, f), lt)
  {
    if n > 0 {
      KeepOrdered(xs, n - 1, f, lt);
      var ys := Keep(xs, n - 1, f);
      forall j | 0 <= j < |ys|
        ensures lt(ys[j], xs[n - 1])
      {
        InKeep(xs, n - 1, f, ys[j]);
      }
    }
  }

  lemma {:induction false} KeepPicks(xs: seq<string>, n: nat, f: string -> Option<Event>)
    requires n <= |xs|
    ensures Picks(Keep(xs, n, f), f) == PicksTo(xs, n, f)
  {
    if n > 0 {
      KeepPicks(xs, n - 1, f);
      if f(xs[n - 1]).Some? {
        var ys := Keep(xs, n - 1, f);
        PicksToPrefix(ys, [xs[n - 1]], |ys|, f);
      } else {
        assert Keep(xs, n, f) == Keep(xs, n - 1, f);
      }
    }
  }

  lemma {:induction false} PicksToPrefix<T>(xs: seq<T>, more: seq<T>, n: nat, f: T -> Option<Event>)
    requires n <= |xs|
    ensures PicksTo(xs + more, n, f) == PicksTo(xs, n, f)
  {
    if n > 0 {
      PicksToPrefix(xs, more, n - 1, f);
    }
  }

  /** Sole leftovers with a common identity are a moved pair, and the only one with it. */
  lemma MovePairById(previous: Tree, actual: Tree, o: Path, q: Path)
    requires q in actual && actual[q].id != ""
    requires Sole(Leftover(previous, actual), actual[q].id, o)
    requires Sole(Leftover(actual, previous), actual[q].id, q)
    ensures MovePair(previous, actual, o, q)
    ensures MovedOf(previous, actual)(actual[q].id) == Some(Moved(q, o, previous[o], actual[q]))
  {
    var id := actual[q].id;
    assert MovePair(previous, actual, o, q);
    forall o', q' | MovePair(previous, actual, o', q') && actual[q'].id == id
      ensures o' == o && q' == q
    {}
  }

  /** The two identity indexes of the leftovers find exactly the moved pairs. */
  lemma PairedIds(previous: Tree, actual: Tree, prevIds: map<string, Path>, actualIds: map<string, Path>)
    requires forall id :: id in prevIds <==> id != "" && exists p :: Sole(Leftover(previous, actual), id, p)
    requires forall id | id in prevIds :: Sole(Leftover(previous, actual), id, prevIds[id])
    requires forall id :: id in actualIds <==> id != "" && exists p :: Sole(Leftover(actual, previous), id, p)
    requires forall id | id in actualIds :: Sole(Leftover(actual, previous), id, actualIds[id])
    ensures forall id :: id in MovedIds(previous, actual) <==> id in prevIds && id in actualIds
    ensures forall id | id in prevIds && id in actualIds :: MovePair(previous, actual, prevIds[id], actualIds[id])
    ensures forall q :: MovedTo(previous, actual, q) ==>
              q in actual && actual[q].id in prevIds && actual[q].id in actualIds && actualIds[actual[q].id] == q
    ensures forall o :: MovedFrom(previous, actual, o) ==>
              o in previous && previous[o].id in actualIds && previous[o].id in prevIds && prevIds[previous[o].id] == o
  {
    forall id | id in prevIds && id in actualIds
      ensures MovePair(previous, actual, prevIds[id], actualIds[id]) && id in MovedIds(previous, actual)
    {
      MovePairById(previous, actual, prevIds[id], actualIds[id]);
      assert MovedTo(previous, actual, actualIds[id]);
      assert actualIds[id] in MovedPaths(previous, actual);
    }
  }

  lemma UnpairedPaths(previous: Tree, actual: Tree, prevIds: map<string, Path>, actualIds: map<string, Path>)
    requires forall id | id in prevIds && id in actualIds :: MovePair(previous, actual, prevIds[id], actualIds[id])
    requires forall q :: MovedTo(previous, actual, q) ==>
               q in actual && actual[q].id in prevIds && actual[q].id in actualIds && actualIds[actual[q].id] == q
    requires forall o :: MovedFrom(previous, actual, o) ==>
               o in previous && previous[o].id in actualIds && previous[o].id in prevIds && prevIds[previous[o].id] == o
    ensures (Leftover(previous, actual) - Paired(prevIds, actualIds.Keys)).Keys == DeletedPaths(previous, actual)
    ensures (Leftover(actual, previous) - Paired(actualIds, prevIds.Keys)).Keys == CreatedPaths(previous, actual)
  {
    forall id | id in prevIds && id in actualIds
      ensures MovedFrom(previous, actual, prevIds[id]) && MovedTo(previous, actual, actualIds[id])
    {
      assert MovePair(previous, actual, prevIds[id], actualIds[id]);
    }
  }

  lemma PairedMoves(previous: Tree, actual: Tree, prevIds: map<string, Path>, actualIds: map<string, Path>)
    requires forall id | id in prevIds ::
               id != "" && prevIds[id] in Leftover(previous, actual)
                 && Sole(Leftover(previous, actual), id, prevIds[id])
    requires forall id | id in actualIds ::
               id != "" && actualIds[id] in Leftover(actual, previous)
                 && Sole(Leftover(actual, previous), id, actualIds[id])
    requires forall id :: id in MovedIds(previous, actual) <==> id in prevIds && id in actualIds
    ensures forall id | id in actualIds :: MovedOf(previous, actual)(id) ==
              if id in prevIds then
                Some(Moved(actualIds[id], prevIds[id],
                           Leftover(previous, actual)[prevIds[id]], Leftover(actual, previous)[actualIds[id]]))
              else None
  {
    var f := MovedOf(previous, actual);
    forall id | id in actualIds
      ensures id !in prevIds ==> f(id) == None
      ensures id in prevIds ==>
                f(id) == Some(Moved(actualIds[id], prevIds[id],
                                    Leftover(previous, actual)[prevIds[id]], Leftover(actual, previous)[actualIds[id]]))
    {
      MovesById(previous, actual, id);
      if id in prevIds {
        MovePairById(previous, actual, prevIds[id], actualIds[id]);
      }
    }
  }

  /*** What the events say ***/

  /** The structural events that are true of the two trees. */
  ghost predicate Describes(previous: Tree, actual: Tree, e: Event) {
    match e
    case Created(q, after) => q in CreatedPaths(previous, actual) && after == actual[q]
    case Deleted(o, before) => o in DeletedPaths(previous, actual) && before == previous[o]
    case Moved(q, o, before, after) => MovePair(previous, actual, o, q) && before == previous[o] && after == actual[q]
    case Missing(_) => false
    case Orphan(_, _) => false
    case Invalid(_, _) => false
    case Corrupt(_, _) => false
    case _ => e.path in previous && e.path in actual && SharedEvent(e.path, previous[e.path], actual[e.path]) == Some(e)
  }

  lemma SharedPart(previous: Tree, actual: Tree, xs: seq<Path>, e: Event)
    requires forall p :: p in xs <==> p in actual.Keys
    ensures e in Picks(xs, SharedOf(previous, actual)) <==>
              (e.Replaced? || e.Modified? || e.AttributeChanged?) && Describes(previous, actual, e)
  {
    InPicks(xs, SharedOf(previous, actual), e);
  }

  lemma MovedPart(previous: Tree, actual: Tree, ids: seq<string>, e: Event)
    requires forall id :: id in ids <==> id in MovedIds(previous, actual)
    ensures e in Picks(ids, MovedOf(previous, actual)) <==> e.Moved? && Describes(previous, actual, e)
  {
    var f := MovedOf(previous, actual);
    InPicks(ids, f, e);
    if e in Picks(ids, f) {
      var id :| id in ids && f(id) == Some(e);
      var o, q :| MovePair(previous, actual, o, q) && actual[q].id == id;
      MovePairById(previous, actual, o, q);
    }
    if e.Moved? && Describes(previous, actual, e) {
      MovePairById(previous, actual, e.oldPath, e.path);
      MovesById(previous, actual, actual[e.path].id);
    }
  }

  lemma CreatedPart(previous: Tree, actual: Tree, xs: seq<Path>, e: Event)
    requires forall p :: p in xs <==> p in CreatedPaths(previous, actual)
    ensures e in Picks(xs, CreatedOf(actual)) <==> e.Created? && Describes(previous, actual, e)
  {
    InPicks(xs, CreatedOf(actual), e);
  }

  lemma DeletedPart(previous: Tree, actual: Tree, xs: seq<Path>, e: Event)
    requires forall p :: p in xs <==> p in DeletedPaths(previous, actual)
    ensures e in Picks(xs, DeletedOf(previous)) <==> e.Deleted? && Describes(previous, actual, e)
  {
    InPicks(xs, DeletedOf(previous), e);
  }

  /** The walk emits exactly the events that are true. */
  lemma StructureIsExact(previous: Tree, actual: Tree, e: Event)
    ensures e in Structure(previous, actual) <==> Describes(previous, actual, e)
  {
    SharedPart(previous, actual, SortedPaths(actual.Keys), e);
    MovedPart(previous, actual, SortedIds(MovedIds(previous, actual)), e);
    CreatedPart(previous, actual, SortedPaths(CreatedPaths(previous, actual)), e);
    DeletedPart(previous, actual, SortedPaths(DeletedPaths(previous, actual)), e);
  }

  /** Moves pair each old path with one new path and back. */
  lemma MovesAreABijection(previous: Tree, actual: Tree, o: Path, q: Path, o': Path, q': Path)
    requires MovePair(previous, actual, o, q) && MovePair(previous, actual, o', q')
    ensures o == o' <==> q == q'
    ensures o in previous && o !in actual && q in actual && q !in previous
  {}

  lemma NamedOnce<T>(xs: seq<T>, f: T -> Option<Event>, p: Path, x: T)
    requires Distinct(xs)
    requires x in xs && f(x).Some? && p in f(x).value.Touches()
    requires forall y | y in xs && y != x && f(y).Some? :: p !in f(y).value.Touches()
    ensures Named(Picks(xs, f), p) == 1
  {
    var k :| 0 <= k < |xs| && xs[k] == x;
    NamedInPicksTo(xs, |xs|, f, p, k);
  }

  /** A part with one event per path names exactly the paths it has an event for. */
  lemma NamedByPath(xs: seq<Path>, f: Path -> Option<Event>, p: Path)
    requires Distinct(xs)
    requires forall x | f(x).Some? :: f(x).value.Touches() == {x}
    ensures Named(Picks(xs, f), p) == if p in xs && f(p).Some? then 1 else 0
  {
    if p in xs && f(p).Some? {
      NamedOnce(xs, f, p, p);
    } else {
      NotNamedInPicksTo(xs, |xs|, f, p);
    }
  }

  lemma NamedMoved(previous: Tree, actual: Tree, ids: seq<string>, p: Path)
    requires Distinct(ids) && forall id :: id in ids <==> id in MovedIds(previous, actual)
    ensures Named(Picks(ids, MovedOf(previous, actual)), p) ==
              if MovedTo(previous, actual, p) || MovedFrom(previous, actual, p) then 1 else 0
  {
    var f := MovedOf(previous, actual);
    forall id | f(id).Some?
      ensures exists o, q :: MovePair(previous, actual, o, q) && actual[q].id == id && f(id).value.Touches() == {o, q}
    {
      var o, q :| MovePair(previous, actual, o, q) && actual[q].id == id;
      MovePairById(previous, actual, o, q);
    }
    if MovedTo(previous, actual, p) || MovedFrom(previous, actual, p) {
      var o, q :| MovePair(previous, actual, o, q) && (p == o || p == q);
      MovePairById(previous, actual, o, q);
      MovesById(previous, actual, actual[q].id);
      NamedOnce(ids, f, p, actual[q].id);
    } else {
      NotNamedInPicksTo(ids, |ids|, f, p);
    }
  }

  /** The diff partitions the paths: one that only one side has is named exactly once,
      a shared one exactly once if it changed visibly, no other path is named. */
  lemma Partition(previous: Tree, actual: Tree, p: Path)
    ensures Named(Structure(previous, actual), p) ==
              if p in previous && p in actual then
                if SharedEvent(p, previous[p], actual[p]).Some? then 1 else 0
              else if p in previous || p in actual then 1
              else 0
  {
    var created, deleted := CreatedPaths(previous, actual), DeletedPaths(previous, actual);
    SortedPathsDistinct(actual.Keys);
    SortedPathsDistinct(created);
    SortedPathsDistinct(deleted);
    SortedIdsDistinct(MovedIds(previous, actual));
    PartitionOf(previous, actual, SortedPaths(actual.Keys), SortedIds(MovedIds(previous, actual)),
                SortedPaths(created), SortedPaths(deleted), p);
  }

  lemma PartitionOf(previous: Tree, actual: Tree, xs: seq<Path>, ids: seq<string>, cs: seq<Path>, ds: seq<Path>,
                    p: Path)
    requires Distinct(xs) && forall x :: x in xs <==> x in actual.Keys
    requires Distinct(ids) && forall x :: x in ids <==> x in MovedIds(previous, actual)
    requires Distinct(cs) && forall x :: x in cs <==> x in CreatedPaths(previous, actual)
    requires Distinct(ds) && forall x :: x in ds <==> x in DeletedPaths(previous, actual)
    ensures Named(Picks(xs, SharedOf(previous, actual)) + Picks(ids, MovedOf(previous, actual))
                  + Picks(cs, CreatedOf(actual)) + Picks(ds, DeletedOf(previous)), p) ==
              if p in previous && p in actual then
                if SharedEvent(p, previous[p], actual[p]).Some? then 1 else 0
              else if p in previous || p in actual then 1
              else 0
  {
    var a, b := Picks(xs, SharedOf(previous, actual)), Picks(ids, MovedOf(previous, actual));
    var c, d := Picks(cs, CreatedOf(actual)), Picks(ds, DeletedOf(previous));
    NamedConcat(a + b + c, d, p);
    NamedConcat(a + b, c, p);
    NamedConcat(a, b, p);
    NamedByPath(xs, SharedOf(previous, actual), p);
    NamedMoved(previous, actual, ids, p);
    NamedByPath(cs, CreatedOf(actual), p);
    NamedByPath(ds, DeletedOf(previous), p);
  }

  /** The snapshot after the previous entries were replaced by the actual ones. */
  function Commit(store: Tree, previous: Tree, actual: Tree): Tree {
    (store - (previous.Keys - actual.Keys)) + actual
  }

  /** Replaying the events of a diff, in any order and with any repetition, turns a view
      of a snapshot that contains `previous` into a view of the committed snapshot. */
  lemma ReplayReachesCommit(store: Tree, previous: Tree, actual: Tree, es: seq<Event>)
    requires forall p | p in previous :: p in store && store[p] == previous[p]
    requires forall p | p in actual && p in store :: p in previous
    requires forall e: Event | e.Structural() :: e in es <==> Describes(previous, actual, e)
    ensures Replay(ViewOf(store), es) == ViewOf(Commit(store, previous, actual))
  {
    var v, target := ViewOf(store), ViewOf(Commit(store, previous, actual));
    assert LeadsTo(es, target);
    forall p
      ensures At(Replay(v, es), p) == At(target, p)
    {
      ReplayAt(v, es, target, p);
      if Named(es, p) == 0 {
        UnnamedIsUntouched(es, p);
        UnnamedStays(store, previous, actual, es, p);
      }
    }
    assert forall p :: p in Replay(v, es) <==> At(Replay(v, es), p).Some?;
    assert forall p :: p in target <==> At(target, p).Some?;
    assert forall p | p in target :: At(Replay(v, es), p) == At(target, p);
  }

  lemma UnnamedStays(store: Tree, previous: Tree, actual: Tree, es: seq<Event>, p: Path)
    requires forall p | p in previous :: p in store && store[p] == previous[p]
    requires forall p | p in actual && p in store :: p in previous
    requires forall e: Event | e.Structural() :: e in es <==> Describes(previous, actual, e)
    requires forall e | e in es :: p !in e.Touches()
    ensures At(ViewOf(store), p) == At(ViewOf(Commit(store, previous, actual)), p)
  {
    if p in previous && p in actual {
      var e := SharedEvent(p, previous[p], actual[p]);
      assert e.Some? ==> Describes(previous, actual, e.value) && p in e.value.Touches();
    } else if p in previous || p in actual {
      var e := Witness(previous, actual, p);
      assert false;
    }
  }

  /** Some event tells of each path that only one side has. */
  lemma Witness(previous: Tree, actual: Tree, p: Path) returns (e: Event)
    requires (p in previous) != (p in actual)
    ensures Describes(previous, actual, e) && p in e.Touches()
  {
    if MovedTo(previous, actual, p) {
      var o :| MovePair(previous, actual, o, p);
      e := Moved(p, o, previous[o], actual[p]);
    } else if MovedFrom(previous, actual, p) {
      var q :| MovePair(previous, actual, p, q);
      e := Moved(q, p, previous[p], actual[q]);
    } else if p in actual {
      e := Created(p, actual[p]);
    } else {
      e := Deleted(p, previous[p]);
    }
  }
}
