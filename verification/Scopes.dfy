/** From a raw notification to the scopes that a reconciliation visits, and what
    visiting them does to the snapshot. */
module Scopes {
  import opened Paths
  import opened Sorting
  import opened Entries
  import opened Diff

  /*** Notifications ***/

  function Parent(p: Path): Path {
    if p == [] then [] else p[..|p| - 1]
  }

  /** The scope to reconcile after a notification about `path`; none outside the root. */
  function Normalize(path: Path, root: Path): Option<Path> {
    if !Above(root, path) then None
    else if path == root || !Above(root, Parent(path)) then Some(root)
    else Some(Parent(path))
  }

  /** The hint is the nearest directory strictly above the path that lies within the root; for the
      root itself it is the root, and outside the root there is none. */
  lemma NormalizeIsNearest(path: Path, root: Path)
    ensures Normalize(path, root).Some? <==> Above(root, path)
    ensures Above(root, path) && path != root ==>
              var scope := Normalize(path, root).value;
              && Above(root, scope) && Above(scope, path) && scope != path
              && forall t | Above(root, t) && Above(t, path) && t != path :: Above(t, scope)
    ensures Normalize(root, root) == Some(root)
  {
    if Above(root, path) && path != root {
      forall t | Above(t, path) && t != path
        ensures Above(t, Parent(path))
      {
        assert t == path[..|t|] == Parent(path)[..|t|];
      }
    }
  }

  /*** Minimal sets of subtrees ***/

  ghost predicate Covers(s: set<Path>, p: Path) {
    exists q :: q in s && Above(q, p)
  }

  /** The members with no other member above them. */
  ghost function Top(s: set<Path>): set<Path> {
    set p | p in s && forall q | q in s && Above(q, p) :: q == p
  }

  /** The minimal set after one more path. */
  ghost function Absorb(s: set<Path>, p: Path): set<Path> {
    if Covers(s, p) then s else (set q | q in s && !Above(p, q)) + {p}
  }

  lemma {:induction false} TopmostAbove(s: set<Path>, p: Path) returns (t: Path)
    requires p in s
    ensures t in Top(s) && Above(t, p)
    decreases |p|
  {
    if p in Top(s) {
      t := p;
    } else {
      var q :| q in s && Above(q, p) && q != p;
      t := TopmostAbove(s, q);
      AboveTransitive(t, q, p);
    }
  }

  /** The minimal set covers what the whole set covers. */
  lemma TopCovers(s: set<Path>, p: Path)
    ensures Covers(Top(s), p) <==> Covers(s, p)
  {
    if Covers(s, p) {
      var q :| q in s && Above(q, p);
      var t := TopmostAbove(s, q);
      AboveTransitive(t, q, p);
    }
  }

  /** Adding a path absorbs what lies under it; nothing changes exactly if it was covered. */
  lemma TopAbsorbs(s: set<Path>, p: Path)
    ensures Top(s + {p}) == Absorb(Top(s), p)
    ensures Top(s + {p}) == Top(s) <==> Covers(s, p)
  {
    TopCovers(s, p);
    if Covers(s, p) {
      var q :| q in s && Above(q, p);
      forall t | t in Top(s) && Above(p, t)
        ensures t == p
      {
        AboveTransitive(q, p, t);
      }
      assert p in Top(s + {p}) ==> q == p;
    } else {
      assert p !in s by {
        assert Above(p, p);
      }
      assert p in Top(s + {p});
    }
  }

  /*** Collapsing requested scopes ***/

  /** A path outside the root stands for the root. */
  function Clamp(root: Path, p: Path): Path {
    if Above(root, p) then p else root
  }

  ghost function Clamped(root: Path, requested: seq<Path>, n: nat): set<Path>
    requires n <= |requested|
  {
    set i | 0 <= i < n :: Clamp(root, requested[i])
  }

  /** The first `n` elements without those under `p`. */
  function OutsideOf(xs: seq<Path>, n: nat, p: Path): seq<Path>
    requires n <= |xs|
  {
    if n == 0 then [] else OutsideOf(xs, n - 1, p) + if Above(p, xs[n - 1]) then [] else [xs[n - 1]]
  }

  lemma {:induction false} InOutsideOf(xs: seq<Path>, n: nat, p: Path, x: Path)
    requires n <= |xs|
    ensures x in OutsideOf(xs, n, p) <==> !Above(p, x) && exists i | 0 <= i < n :: xs[i] == x
  {
    if n > 0 {
      InOutsideOf(xs, n - 1, p, x);
    }
  }

  lemma {:induction false} OutsideOfDistinct(xs: seq<Path>, n: nat, p: Path)
    requires n <= |xs| && Distinct(xs)
    ensures Distinct(OutsideOf(xs, n, p))
  {
    if n > 0 {
      OutsideOfDistinct(xs, n - 1, p);
      InOutsideOf(xs, n - 1, p, xs[n - 1]);
    }
  }

  lemma {:induction false} OutsideOfAll(xs: seq<Path>, n: nat, p: Path)
    requires n <= |xs| && forall i | 0 <= i < n :: !Above(p, xs[i])
    ensures OutsideOf(xs, n, p) == xs[..n]
  {
    if n > 0 {
      OutsideOfAll(xs, n - 1, p);
    }
  }

  /** The scopes that remain after the first `n` requests. */
  function Collapse(root: Path, requested: seq<Path>, n: nat): seq<Path>
    requires n <= |requested|
  {
    if n == 0 then [] else
      var kept := Collapse(root, requested, n - 1);
      var p := Clamp(root, requested[n - 1]);
      if exists q | q in kept :: Above(q, p) then kept else OutsideOf(kept, |kept|, p) + [p]
  }

  lemma CollapseStep(kept: seq<Path>, p: Path, s: set<Path>)
    requires Elements(kept) == Top(s)
    ensures var next := if exists q | q in kept :: Above(q, p) then kept else OutsideOf(kept, |kept|, p) + [p];
            Elements(next) == Top(s + {p})
  {
    TopAbsorbs(s, p);
    if exists q | q in kept :: Above(q, p) {
      var q :| q in kept && Above(q, p);
      assert q in Elements(kept);
    } else {
      var next := OutsideOf(kept, |kept|, p) + [p];
      forall x
        ensures x in next <==> x in Absorb(Elements(kept), p)
      {
        InOutsideOf(kept, |kept|, p, x);
      }
    }
  }

  /** Collapsing leaves exactly the topmost requests, each once, all within the root. */
  lemma {:induction false} CollapseIsTop(root: Path, requested: seq<Path>, n: nat)
    requires n <= |requested|
    ensures Elements(Collapse(root, requested, n)) == Top(Clamped(root, requested, n))
    ensures Distinct(Collapse(root, requested, n))
    ensures forall x | x in Collapse(root, requested, n) :: Above(root, x)
  {
    if n > 0 {
      CollapseIsTop(root, requested, n - 1);
      var p, s := Clamp(root, requested[n - 1]), Clamped(root, requested, n - 1);
      var kept := Collapse(root, requested, n - 1);
      assert Clamped(root, requested, n) == s + {p};
      CollapseStep(kept, p, s);
      OutsideOfDistinct(kept, |kept|, p);
      InOutsideOf(kept, |kept|, p, p);
      forall x | x in Collapse(root, requested, n)
        ensures Above(root, x)
      {
        InOutsideOf(kept, |kept|, p, x);
      }
    }
  }

  lemma CollapseNotEmpty(root: Path, requested: seq<Path>)
    requires requested != []
    ensures Collapse(root, requested, |requested|) != []
  {
    CollapseIsTop(root, requested, |requested|);
    var clamped := Clamped(root, requested, |requested|);
    assert Clamp(root, requested[0]) in clamped;
    var t := TopmostAbove(clamped, Clamp(root, requested[0]));
    assert t in Elements(Collapse(root, requested, |requested|));
  }

  /** A list that is already minimal, such as a drained dirty set, passes unchanged. */
  lemma {:induction false} CollapseKeepsMinimal(root: Path, xs: seq<Path>, n: nat)
    requires n <= |xs|
    requires forall i | 0 <= i < |xs| :: Above(root, xs[i])
    requires forall i, j | 0 <= i < |xs| && 0 <= j < |xs| && i != j :: !Above(xs[i], xs[j])
    ensures Collapse(root, xs, n) == xs[..n]
  {
    if n > 0 {
      CollapseKeepsMinimal(root, xs, n - 1);
      var kept, p := xs[..n - 1], xs[n - 1];
      forall q | q in kept
        ensures !Above(q, p)
      {
        var i :| 0 <= i < n - 1 && kept[i] == q;
        assert xs[i] == q;
      }
      assert forall i | 0 <= i < |kept| :: kept[i] == xs[i];
      OutsideOfAll(kept, |kept|, p);
      assert kept[..|kept|] == kept;
    }
  }

  /** Filters the list in place, request by request. */
  method CollapseScopes(root: Path, requested: seq<Path>) returns (paths: seq<Path>)
    ensures paths == Collapse(root, requested, |requested|)
  {
    paths := [];
    for i := 0 to |requested|
      invariant paths == Collapse(root, requested, i)
    {
      var path := Clamp(root, requested[i]);
      var covered := false;
      for j := 0 to |paths|
        invariant covered <==> exists k | 0 <= k < j :: Above(paths[k], path)
      {
        covered := covered || Above(paths[j], path);
      }
      assert covered <==> exists q | q in paths :: Above(q, path);
      if !covered {
        var kept := [];
        for j := 0 to |paths|
          invariant kept == OutsideOf(paths, j, path)
        {
          if !Above(path, paths[j]) {
            kept := kept + [paths[j]];
          }
        }
        paths := kept + [path];
      }
    }
  }

  /*** What a scoped reconciliation does ***/

  /** Whatever has something below it is a directory and is there. */
  ghost predicate Hierarchy(disk: Tree) {
    forall p, s | p in disk && s != p && Above(s, p) :: IsDir(disk, s)
  }

  predicate IsDir(disk: Tree, p: Path) {
    p in disk && disk[p].fileType == Directory
  }

  /** Scanning a directory yields what is below it; scanning anything else yields itself. */
  predicate Scans(disk: Tree, s: Path, p: Path) {
    if IsDir(disk, s) then s != p && Above(s, p) else s == p
  }

  function Actual(disk: Tree, scopes: seq<Path>): Tree {
    map p | p in disk && (exists s | s in scopes :: Scans(disk, s, p)) :: disk[p]
  }

  /** The stored entries under the scopes, without the own entries of directory scopes. */
  function Previous(store: Tree, disk: Tree, scopes: seq<Path>): Tree {
    map p | p in store && (exists s | s in scopes :: Above(s, p)) && !(p in scopes && IsDir(disk, p)) :: store[p]
  }

  function Reconciled(store: Tree, disk: Tree, scopes: seq<Path>): Tree {
    Commit(store, Previous(store, disk, scopes), Actual(disk, scopes))
  }

  /** The paths a pass over `scopes` brings up to date: those strictly below a scope, and
      scopes that are not directories. */
  ghost predicate Refreshed(disk: Tree, scopes: seq<Path>, p: Path) {
    exists s :: s in scopes && Above(s, p) && (s == p ==> !IsDir(disk, s))
  }

  /** A pass compares the stored entries with those on disk exactly at the refreshed paths. */
  lemma ComparedExactly(store: Tree, disk: Tree, scopes: seq<Path>, s: set<Path>, p: Path)
    requires Hierarchy(disk) && Elements(scopes) == Top(s)
    ensures At(Previous(store, disk, scopes), p) == if Refreshed(disk, scopes, p) then At(store, p) else None
    ensures At(Actual(disk, scopes), p) == if Refreshed(disk, scopes, p) then At(disk, p) else None
  {
    assert forall q | q in scopes :: q in Elements(scopes);
    if Refreshed(disk, scopes, p) {
      var q :| q in scopes && Above(q, p) && (q == p ==> !IsDir(disk, q));
      assert p in scopes ==> q == p;
      if p in disk {
        assert q != p ==> IsDir(disk, q);
        assert Scans(disk, q, p);
      }
    }
  }

  /** A pass replaces exactly the refreshed entries by what is on disk. */
  lemma ReconciledExactly(store: Tree, disk: Tree, scopes: seq<Path>, p: Path)
    requires Hierarchy(disk)
    ensures At(Reconciled(store, disk, scopes), p) == if Refreshed(disk, scopes, p) then At(disk, p) else At(store, p)
  {
    var previous, actual := Previous(store, disk, scopes), Actual(disk, scopes);
    if Refreshed(disk, scopes, p) {
      var s :| s in scopes && Above(s, p) && (s == p ==> !IsDir(disk, s));
      if p in disk {
        assert s != p ==> IsDir(disk, s);
        assert p in actual;
      } else {
        assert Above(s, p);
        assert p !in actual;
        assert p in store ==> p in previous;
      }
    } else {
      assert p !in actual;
      assert p !in previous;
    }
  }

  /** A scoped pass gives what a full pass gives exactly when the snapshot was already
      right wherever only the full pass looks. */
  lemma ScopedEqualsFull(store: Tree, disk: Tree, root: Path, scopes: seq<Path>)
    requires Hierarchy(disk) && forall s | s in scopes :: Above(root, s)
    ensures Reconciled(store, disk, scopes) == Reconciled(store, disk, [root]) <==>
              forall p | Refreshed(disk, [root], p) && !Refreshed(disk, scopes, p) :: At(store, p) == At(disk, p)
  {
    var a, b := Reconciled(store, disk, scopes), Reconciled(store, disk, [root]);
    forall p
      ensures At(a, p) == if Refreshed(disk, scopes, p) then At(disk, p) else At(store, p)
      ensures At(b, p) == if Refreshed(disk, [root], p) then At(disk, p) else At(store, p)
      ensures Refreshed(disk, scopes, p) ==> Refreshed(disk, [root], p)
    {
      ReconciledExactly(store, disk, scopes, p);
      ReconciledExactly(store, disk, [root], p);
      if Refreshed(disk, scopes, p) {
        var s :| s in scopes && Above(s, p) && (s == p ==> !IsDir(disk, s));
        assert root in [root];
        AboveTransitive(root, s, p);
      }
    }
    if forall p | Refreshed(disk, [root], p) && !Refreshed(disk, scopes, p) :: At(store, p) == At(disk, p) {
      SameTree(a, b);
    }
  }

  lemma SameTree(a: Tree, b: Tree)
    requires forall p :: At(a, p) == At(b, p)
    ensures a == b
  {
    assert forall p :: (p in a <==> At(a, p).Some?) && (p in b <==> At(b, p).Some?);
    assert forall p | p in a :: At(a, p) == At(b, p);
  }

  /** The promise behind a notification: once its hint has gone through the dirty set, which
      may hold any other scopes, and the drained scopes were reconciled, the snapshot agrees
      with the disk at the path. */
  lemma NotificationIsReconciled(root: Path, path: Path, added: set<Path>, drained: seq<Path>, store: Tree, disk: Tree)
    requires Hierarchy(disk)
    requires root != path
    requires Normalize(path, root).Some? && Normalize(path, root).value in added
    requires Elements(drained) == Top(added)
    ensures At(Reconciled(store, disk, Collapse(root, drained, |drained|)), path) == At(disk, path)
  {
    var scope, scopes := Parent(path), Collapse(root, drained, |drained|);
    var clamped := Clamped(root, drained, |drained|);
    CollapseIsTop(root, drained, |drained|);
    TopCovers(added, scope);
    assert Above(scope, scope);
    var d :| d in Top(added) && Above(d, scope);
    assert d in Elements(drained);
    assert Clamp(root, d) in clamped && Above(Clamp(root, d), scope);
    TopCovers(clamped, scope);
    var s :| s in Top(clamped) && Above(s, scope);
    assert s in Elements(scopes);
    AboveTransitive(s, scope, path);
    assert s != path;
    ReconciledExactly(store, disk, scopes, path);
  }

  /** A notification about the root itself refreshes the root's entry exactly if the root is
      not a directory: the entry of a directory scope stays as it was. */
  lemma RootNotification(root: Path, store: Tree, disk: Tree)
    requires Hierarchy(disk)
    ensures Normalize(root, root) == Some(root)
    ensures At(Reconciled(store, disk, [root]), root) == if IsDir(disk, root) then At(store, root) else At(disk, root)
  {
    ReconciledExactly(store, disk, [root], root);
    assert root in [root];
  }

  /** So a directory that replaced a file at the root keeps the file's entry. */
  lemma StaleRootEntry()
    ensures exists root, store: Tree, disk: Tree ::
              Hierarchy(disk) && At(Reconciled(store, disk, [root]), root) != At(disk, root)
  {
    var file, dir := Meta("1", Regular, 3, 0, 0), Meta("2", Directory, 0, 0, 0);
    var root: Path := [];
    var store: Tree, disk: Tree := map[root := file], map[root := dir];
    assert Hierarchy(disk);
    RootNotification(root, store, disk);
  }
}
