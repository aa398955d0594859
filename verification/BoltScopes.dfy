/** A scoped reconciliation over the persistent store: what the gap in the cursor walk does to the
    snapshot and to the report. */
module BoltScopes {
  import opened Paths
  import opened Sorting
  import opened Entries
  import opened Diff
  import opened Scopes
  import BoltStore

  /** The store can be walked as text: its paths are cleaned and have no backslashes, and `keys`
      are their texts in byte order. */
  ghost predicate Stored(store: Tree, keys: seq<string>) {
    && Ordered(keys, Less)
    && (forall p | p in store :: Valid(p) && NoBackslash(p) && Render(p) in keys)
    && (forall k | k in keys :: exists p :: p in store && Render(p) == k)
  }

  /** The stored paths under the scope that the walk does not visit. */
  ghost function Hidden(store: Tree, scope: Path, visited: seq<string>): set<Path> {
    set p | p in store && Above(scope, p) && Render(p) !in visited
  }

  /** The stored entries that take part in the comparison. */
  function Seen(store: Tree, disk: Tree, scope: Path, visited: seq<string>): Tree {
    map p | p in Previous(store, disk, [scope]) && Render(p) in visited :: store[p]
  }

  /** The snapshot after the pass. */
  function Passed(store: Tree, disk: Tree, scope: Path, visited: seq<string>): Tree {
    Commit(store, Seen(store, disk, scope, visited), Actual(disk, [scope]))
  }

  /** The walk hides something exactly if there is a gap. */
  lemma HidesExactly(store: Tree, keys: seq<string>, scope: Path, visited: seq<string>)
    requires Stored(store, keys) && Valid(scope)
    requires Walked(keys, scope, visited)
    ensures Hidden(store, scope, visited) == {} <==> !BoltStore.Gap(keys, Render(scope))
  {
    forall p | p in store
      ensures HasPrefix(Render(p), Render(scope)) <==> Above(scope, p)
    {
      HasPrefixIsAncestor(p, scope);
    }
    if BoltStore.Complete(keys, Render(scope), visited) {
      assert forall p | p in store && Above(scope, p) :: Render(p) in keys && Render(p) in visited;
    } else {
      var k :| k in keys && HasPrefix(k, Render(scope)) && k !in visited;
      var p :| p in store && Render(p) == k;
      assert p in Hidden(store, scope, visited);
    }
  }

  /** A hidden entry that is gone from disk stays in the snapshot; everything else is as a pass
      over the whole subtree would leave it. */
  lemma HiddenStays(store: Tree, disk: Tree, scope: Path, visited: seq<string>, p: Path)
    ensures At(Passed(store, disk, scope, visited), p) ==
              if p in Hidden(store, scope, visited) && p !in Actual(disk, [scope]) then At(store, p)
              else At(Reconciled(store, disk, [scope]), p)
  {
    assert scope in [scope];
  }

  /** The pass gives what it should exactly if every hidden entry that it should have compared is
      still on disk. */
  lemma PassIsRightExactly(store: Tree, disk: Tree, scope: Path, visited: seq<string>)
    ensures Passed(store, disk, scope, visited) == Reconciled(store, disk, [scope]) <==>
              forall p | p in Hidden(store, scope, visited) && p in Previous(store, disk, [scope]) ::
                p in Actual(disk, [scope])
  {
    var a, b := Passed(store, disk, scope, visited), Reconciled(store, disk, [scope]);
    assert scope in [scope];
    forall p
      ensures At(a, p) ==
                if p in Hidden(store, scope, visited) && p !in Actual(disk, [scope]) then At(store, p) else At(b, p)
    {
      HiddenStays(store, disk, scope, visited, p);
    }
    forall p | p in Previous(store, disk, [scope]) && p !in Actual(disk, [scope])
      ensures At(b, p) == None && At(store, p) != None
    {}
    forall p | p in store && p !in Previous(store, disk, [scope]) && p !in Actual(disk, [scope])
      ensures At(b, p) == At(store, p)
    {}
    if forall p | p in Hidden(store, scope, visited) && p in Previous(store, disk, [scope]) ::
         p in Actual(disk, [scope])
    {
      SameTree(a, b);
    }
  }

  /** Nothing is reported of a hidden entry that is gone from disk. */
  lemma HiddenIsNotReported(store: Tree, disk: Tree, scope: Path, visited: seq<string>, p: Path)
    requires p in Hidden(store, scope, visited) && p !in Actual(disk, [scope])
    ensures Named(Structure(Seen(store, disk, scope, visited), Actual(disk, [scope])), p) == 0
  {
    Partition(Seen(store, disk, scope, visited), Actual(disk, [scope]), p);
  }

  /** What the cursor walk returns for the scope. */
  ghost predicate Walked(keys: seq<string>, scope: Path, visited: seq<string>) {
    && (forall k | k in visited :: k in keys && HasPrefix(k, Render(scope)))
    && (BoltStore.Complete(keys, Render(scope), visited) <==> !BoltStore.Gap(keys, Render(scope)))
  }

  /** Passes over the scope are right for every disk exactly if there is no gap. */
  lemma RightForEveryDiskExactly(store: Tree, keys: seq<string>, scope: Path, visited: seq<string>)
    requires Stored(store, keys) && Valid(scope) && Walked(keys, scope, visited)
    ensures (forall disk | Hierarchy(disk) ::
               Passed(store, disk, scope, visited) == Reconciled(store, disk, [scope])) <==>
            !BoltStore.Gap(keys, Render(scope))
  {
    HidesExactly(store, keys, scope, visited);
    if BoltStore.Gap(keys, Render(scope)) {
      var p :| p in Hidden(store, scope, visited);
      var disk: Tree := map[];
      assert scope in [scope] && p in Previous(store, disk, [scope]);
      PassIsRightExactly(store, disk, scope, visited);
    } else {
      forall disk | Hierarchy(disk)
        ensures Passed(store, disk, scope, visited) == Reconciled(store, disk, [scope])
      {
        PassIsRightExactly(store, disk, scope, visited);
      }
    }
  }

  /** The only way in which a pass can be wrong: a stored entry that is gone from disk stays, and
      nothing is reported of it. */
  ghost predicate RightOrSilent(store: Tree, disk: Tree, scope: Path, store': Tree, events: seq<Event>, p: Path) {
    || At(store', p) == At(Reconciled(store, disk, [scope]), p)
    || (p in store && At(store', p) == At(store, p) && p !in Actual(disk, [scope]) && Named(events, p) == 0)
  }

  lemma PassIsRightOrSilent(store: Tree, disk: Tree, scope: Path, visited: seq<string>, p: Path)
    ensures RightOrSilent(store, disk, scope, Passed(store, disk, scope, visited),
                          Structure(Seen(store, disk, scope, visited), Actual(disk, [scope])), p)
  {
    HiddenStays(store, disk, scope, visited, p);
    if p in Hidden(store, scope, visited) && p !in Actual(disk, [scope]) {
      HiddenIsNotReported(store, disk, scope, visited, p);
    }
  }

  /** Walks the persistent store for a scope, compares with the disk and commits. */
  method PassOverScope(store: Tree, keys: seq<string>, disk: Tree, scope: Path)
    returns (store': Tree, events: seq<Event>)
    requires Stored(store, keys) && Valid(scope)
    ensures !BoltStore.Gap(keys, Render(scope)) ==> store' == Reconciled(store, disk, [scope])
    ensures forall p :: RightOrSilent(store, disk, scope, store', events, p)
  {
    var visited, _, _ := BoltStore.WalkScope(keys, Render(scope));
    var previous, actual := Seen(store, disk, scope, visited), Actual(disk, [scope]);
    events := WalkStructure(previous, actual);
    store' := Commit(store, previous, actual);
    HidesExactly(store, keys, scope, visited);
    PassIsRightExactly(store, disk, scope, visited);
    forall p
      ensures RightOrSilent(store, disk, scope, store', events, p)
    {
      PassIsRightOrSilent(store, disk, scope, visited, p);
    }
  }
}
