/** Recursive watch registrations, mirrored from the native backend. */
module WatchTree {
  import opened Paths
  import opened Sorting
  import opened Entries
  import opened Scopes

  /** How the backend answers a removal: done, an error because the platform has already dropped
      the registration, or any other error. */
  datatype Answer = Done | Gone | Refused

  /** What the backend answers in the end: it does not call a registration gone that is there. */
  function Reply(answer: Answer, registered: bool): Answer {
    if answer.Gone? && registered then Done else answer
  }

  /** The answers that end a sequence of removals. */
  predicate Stops(answer: Answer, tolerant: bool) {
    answer.Refused? || (answer.Gone? && !tolerant)
  }

  /** The native backend.  It answers as it likes, and the platform may drop registrations. */
  class Backend {
    const adds: nat -> bool
    const removes: nat -> Answer
    var calls: nat
    var registered: set<Path>
    /** What the platform has dropped by itself at some time. */
    ghost var vanished: set<Path>
    /** The paths of all removals that were not refused, in order. */
    ghost var removed: seq<Path>

    constructor (adds: nat -> bool, removes: nat -> Answer, root: Path)
      ensures registered == {root} && vanished == {} && removed == [] && calls == 0
    {
      this.adds, this.removes := adds, removes;
      calls, registered, vanished, removed := 0, {root}, {}, [];
    }

    method Vanish(path: Path)
      modifies this
      ensures registered == old(registered) - {path} && vanished == old(vanished) + {path} && removed == old(removed)
    {
      registered := registered - {path};
      vanished := vanished + {path};
    }

    method Add(path: Path) returns (ok: bool)
      modifies this
      ensures ok == adds(old(calls))
      ensures registered == (if ok then old(registered) + {path} else old(registered))
      ensures vanished == old(vanished) && removed == old(removed) && calls == old(calls) + 1
    {
      ok := adds(calls);
      calls := calls + 1;
      if ok {
        registered := registered + {path};
      }
    }

    method Remove(path: Path) returns (answer: Answer)
      modifies this
      ensures answer == Reply(removes(old(calls)), path in old(registered)) && calls == old(calls) + 1
      ensures answer.Refused? ==> registered == old(registered) && removed == old(removed)
      ensures !answer.Refused? ==> registered == old(registered) - {path} && removed == old(removed) + [path]
      ensures vanished == old(vanished)
    {
      answer := Reply(removes(calls), path in registered);
      calls := calls + 1;
      if !answer.Refused? {
        registered := registered - {path};
        removed := removed + [path];
      }
    }
  }

  ghost predicate InScopes(scopes: seq<Path>, p: Path) {
    exists s | s in scopes :: Above(s, p)
  }

  /** What a synchronisation wants to remove: the watched directories in scope that were not
      observed, except the root. */
  ghost function Stale(watched: set<Path>, root: Path, scopes: seq<Path>, observed: set<Path>): set<Path> {
    set p | p in watched && p != root && InScopes(scopes, p) && p !in observed
  }

  /** Descendants come before their ancestors. */
  ghost predicate BottomUp(xs: seq<Path>) {
    forall i, j | 0 <= i < j < |xs| :: !Above(xs[i], xs[j])
  }

  /** Longer texts first: an ancestor has a shorter text, so it comes later. */
  ghost predicate LongestFirst(xs: seq<Path>) {
    forall i, j | 0 <= i < j < |xs| :: |Text(xs[i])| >= |Text(xs[j])|
  }

  lemma LongestFirstIsBottomUp(xs: seq<Path>)
    requires Distinct(xs) && LongestFirst(xs)
    ensures BottomUp(xs)
  {
    forall i, j | 0 <= i < j < |xs|
      ensures !Above(xs[i], xs[j])
    {
      if Above(xs[i], xs[j]) {
        DescendantIsLonger(xs[j], xs[i]);
      }
    }
  }

  /** Sorts by descending length of the text. */
  method SortLongestFirst(s: set<Path>) returns (xs: seq<Path>)
    ensures Distinct(xs) && LongestFirst(xs) && forall p :: p in xs <==> p in s
  {
    xs := [];
    var rest := s;
    while rest != {}
      invariant rest <= s && (forall p :: p in xs <==> p in s - rest)
      invariant Distinct(xs) && LongestFirst(xs)
      decreases |rest|
    {
      var x :| x in rest;
      var k := |xs|;
      while k > 0 && |Text(xs[k - 1])| < |Text(x)|
        invariant 0 <= k <= |xs| && forall j | k <= j < |xs| :: |Text(xs[j])| < |Text(x)|
      {
        k := k - 1;
      }
      InsertLongest(xs, k, x);
      xs := xs[..k] + [x] + xs[k..];
      rest := rest - {x};
    }
  }

  lemma InsertLongest(xs: seq<Path>, k: nat, x: Path)
    requires k <= |xs| && Distinct(xs) && LongestFirst(xs) && x !in xs
    requires forall j | k <= j < |xs| :: |Text(xs[j])| < |Text(x)|
    requires k > 0 ==> |Text(xs[k - 1])| >= |Text(x)|
    ensures var ys := xs[..k] + [x] + xs[k..];
            Distinct(ys) && LongestFirst(ys) && forall p :: p in ys <==> p == x || p in xs
  {
    assert forall i | 0 <= i < |xs| :: xs[i] in xs;
    InsertBySize(xs, k, x, p => |Text(p)|);
    InsertMember(xs, k, x);
  }

  lemma InsertBySize(xs: seq<Path>, k: nat, x: Path, size: Path -> nat)
    requires k <= |xs| && Distinct(xs) && forall i | 0 <= i < |xs| :: xs[i] != x
    requires forall i, j | 0 <= i < j < |xs| :: size(xs[i]) >= size(xs[j])
    requires forall j | k <= j < |xs| :: size(xs[j]) < size(x)
    requires k > 0 ==> size(xs[k - 1]) >= size(x)
    ensures var ys := xs[..k] + [x] + xs[k..];
            Distinct(ys) && (forall i, j | 0 <= i < j < |ys| :: size(ys[i]) >= size(ys[j]))
  {
    var ys := xs[..k] + [x] + xs[k..];
    forall i, j | 0 <= i < j < |ys|
      ensures ys[i] != ys[j] && size(ys[i]) >= size(ys[j])
    {
      var a, b := if i <= k then i else i - 1, if j <= k then j else j - 1;
      assert i != k ==> ys[i] == xs[a];
      assert j != k ==> ys[j] == xs[b];
      assert i < k ==> size(xs[i]) >= size(x);
    }
  }

  lemma InsertMember(xs: seq<Path>, k: nat, x: Path)
    requires k <= |xs|
    ensures forall p :: p in xs[..k] + [x] + xs[k..] <==> p == x || p in xs
  {
    assert xs == xs[..k] + xs[k..];
  }

  class Tree {
    const root: Path
    const backend: Backend
    var watched: set<Path>

    /** The tree knows everything that is registered; what it knows beyond that was dropped by
        the platform.  As long as nothing was dropped, the two sets are equal. */
    ghost predicate Valid()
      reads this, backend
    {
      && backend.registered <= watched && watched - backend.registered <= backend.vanished
      && root in watched
    }

    constructor (root: Path, backend: Backend)
      requires backend.registered == {root} && backend.vanished == {}
      ensures Valid() && this.root == root && this.backend == backend
    {
      this.root, this.backend := root, backend;
      watched := {root};
    }

    /** Registers a path once; nothing outside the root. */
    method Add(path: Path) returns (ok: bool)
      requires Valid()
      modifies this, backend
      ensures Valid()
      ensures ok <==> Above(root, path) && (path in old(watched) || backend.adds(old(backend.calls)))
      ensures backend.calls == old(backend.calls) + if Above(root, path) && path !in old(watched) then 1 else 0
      ensures watched == if ok then old(watched) + {path} else old(watched)
    {
      if !Above(root, path) {
        return false;
      }
      if path in watched {
        return true;
      }
      ok := backend.Add(path);
      if ok {
        watched := watched + {path};
      }
    }

    /** The `k` first removals of `order` went through, and the next one, if there is one, was
        answered in a way that stops; `registered` and `calls` are those of the backend before. */
    ghost predicate Removing(order: seq<Path>, k: nat, tolerant: bool, registered: set<Path>, calls: nat) {
      && k <= |order|
      && (forall i | 0 <= i < k :: !Stops(Reply(backend.removes(calls + i), order[i] in registered), tolerant))
      && (k < |order| ==> Stops(Reply(backend.removes(calls + k), order[k] in registered), tolerant))
    }

    /** Removes what was not observed, descendants first, in the order `order`.  It fails exactly
        if the backend answers one of the removals with an error; then exactly the `k` paths before
        that one are gone.  Tree and backend agree in any case. */
    method Sync(scopes: seq<Path>, observed: set<Path>) returns (ok: bool, ghost order: seq<Path>, ghost k: nat)
      requires Valid()
      modifies this, backend
      ensures Valid()
      ensures BottomUp(order) && Elements(order) == Stale(old(watched), root, scopes, observed)
      ensures Removing(order, k, false, old(backend.registered), old(backend.calls))
      ensures ok <==> k == |order|
      ensures watched == old(watched) - Elements(order[..k])
      ensures old(backend.removed) + order[..k] <= backend.removed
      ensures backend.calls == old(backend.calls) + k + if ok then 0 else 1
      ensures ok ==> watched == old(watched) - Stale(old(watched), root, scopes, observed)
      ensures ok ==> forall p | p in watched && InScopes(scopes, p) :: p == root || p in observed
    {
      var remove := SelectStale(watched, root, scopes, observed);
      var paths := SortLongestFirst(remove);
      LongestFirstIsBottomUp(paths);
      order := paths;
      ok, k := RemoveInOrder(paths, false);
    }

    /** Removes a path and everything below it, except the root; what the platform has already
        dropped counts as removed, so only another error makes it fail. */
    method RemoveSubtree(path: Path) returns (ok: bool, ghost order: seq<Path>, ghost k: nat)
      requires Valid()
      modifies this, backend
      ensures Valid()
      ensures BottomUp(order) && Elements(order) == (set p | p in old(watched) && p != root && Above(path, p))
      ensures Removing(order, k, true, old(backend.registered), old(backend.calls))
      ensures ok <==> k == |order|
      ensures watched == old(watched) - Elements(order[..k])
      ensures old(backend.removed) + order[..k] <= backend.removed
      ensures backend.calls == old(backend.calls) + k + if ok then 0 else 1
      ensures ok ==> watched == old(watched) - (set p | p in old(watched) && p != root && Above(path, p))
    {
      var remove := set p | p in watched && p != root && Above(path, p);
      var paths := SortLongestFirst(remove);
      LongestFirstIsBottomUp(paths);
      order := paths;
      ok, k := RemoveInOrder(paths, true);
    }

    /** Removes the registrations one by one until an answer stops it. */
    method RemoveInOrder(order: seq<Path>, tolerant: bool) returns (ok: bool, ghost k: nat)
      requires Valid() && Distinct(order) && root !in order
      modifies this, backend
      ensures Valid()
      ensures Removing(order, k, tolerant, old(backend.registered), old(backend.calls))
      ensures ok <==> k == |order|
      ensures ok ==> watched == old(watched) - Elements(order)
      ensures watched == old(watched) - Elements(order[..k])
      ensures old(backend.removed) + order[..k] <= backend.removed
      ensures backend.calls == old(backend.calls) + k + if ok then 0 else 1
    {
      for i := 0 to |order|
        invariant Valid()
        invariant watched == old(watched) - Elements(order[..i])
        invariant backend.registered == old(backend.registered) - Elements(order[..i])
        invariant backend.calls == old(backend.calls) + i && backend.removed == old(backend.removed) + order[..i]
        invariant forall j | 0 <= j < i ::
                    !Stops(Reply(backend.removes(old(backend.calls) + j), order[j] in old(backend.registered)),
                           tolerant)
      {
        assert order[..i + 1] == order[..i] + [order[i]];
        assert order[i] in order && order[i] !in order[..i];
        var answer := backend.Remove(order[i]);
        if Stops(answer, tolerant) {
          k := i;
          return false, k;
        }
        watched := watched - {order[i]};
      }
      assert order[..|order|] == order;
      ok, k := true, |order|;
    }
  }

  method SelectStale(watched: set<Path>, root: Path, scopes: seq<Path>, observed: set<Path>) returns (remove: set<Path>)
    ensures remove == Stale(watched, root, scopes, observed)
  {
    remove := {};
    var todo := watched;
    while todo != {}
      invariant todo <= watched && remove == Stale(watched - todo, root, scopes, observed)
      decreases |todo|
    {
      var path :| path in todo;
      var inScope := exists s | s in scopes :: Above(s, path);
      if path != root && inScope && path !in observed {
        remove := remove + {path};
      }
      todo := todo - {path};
    }
    assert watched - {} == watched;
  }
}
