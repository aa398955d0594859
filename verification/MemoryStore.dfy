/** The in-memory snapshot store: a map of entries and a trie of their paths.  The map is keyed
    by the path as given, the trie by its cleaned parts. */
module MemoryStore {
  import opened Paths
  import opened Sorting
  import opened Entries

  /*** Parts of a path ***/

  function Split(s: string): (parts: seq<string>)
    ensures parts != []
  {
    if s == "" then [""] else
      var rest := Split(s[1..]);
      if s[0] == '/' then [""] + rest else [[s[0]] + rest[0]] + rest[1..]
  }

  /** Cleans the parts: empty ones and dots go, a double dot takes the part before it along. */
  function Reduce(parts: seq<string>, rooted: bool, acc: seq<string>): seq<string>
    decreases |parts|
  {
    if parts == [] then acc else
      var part, rest := parts[0], parts[1..];
      if part == "" || part == "." then Reduce(rest, rooted, acc)
      else if part != ".." then Reduce(rest, rooted, acc + [part])
      else if acc != [] && acc[|acc| - 1] != ".." then Reduce(rest, rooted, acc[..|acc| - 1])
      else if rooted then Reduce(rest, rooted, acc)
      else Reduce(rest, rooted, acc + [part])
  }

  predicate IsAbs(path: string) {
    path != "" && path[0] == '/'
  }

  function PathParts(path: string): seq<string> {
    [if IsAbs(path) then "/" else "."] + Reduce(Split(path), IsAbs(path), [])
  }

  lemma {:induction false} SplitName(a: string, t: string)
    requires '/' !in a && (t == "" || t[0] == '/')
    ensures Split(a + t) == [a] + Split(t)[1..]
  {
    if a == "" {
      assert a + t == t;
    } else {
      assert (a + t)[1..] == a[1..] + t;
      SplitName(a[1..], t);
      assert [a[0]] + a[1..] == a;
    }
  }

  lemma {:induction false} SplitText(p: Path)
    requires Valid(p)
    ensures Split(Text(p)) == [""] + p
  {
    if p != [] {
      var t := Text(p[1..]);
      assert Text(p)[1..] == p[0] + t;
      SplitText(p[1..]);
      SplitName(p[0], t);
      assert p == [p[0]] + p[1..];
    }
  }

  lemma {:induction false} ReduceClean(p: Path, rooted: bool, acc: seq<string>)
    requires Valid(p)
    ensures Reduce(p, rooted, acc) == acc + p
    decreases |p|
  {
    if p != [] {
      ReduceClean(p[1..], rooted, acc + [p[0]]);
      assert acc + [p[0]] + p[1..] == acc + p;
    }
  }

  /** A cleaned absolute path has its own names as parts. */
  lemma CleanParts(p: Path)
    requires Valid(p)
    ensures PathParts(Render(p)) == ["/"] + p
  {
    if p == [] {
      assert "/"[1..] == "" && Split("/") == [""] + Split("");
      var parts: seq<string> := ["", ""];
      assert Split("/") == parts && parts[1..] == [""] && parts[1..][1..] == [];
      assert Reduce(parts, true, []) == Reduce(parts[1..], true, []) == Reduce(parts[1..][1..], true, []);
    } else {
      var parts := [""] + p;
      SplitText(p);
      ReduceClean(p, true, []);
      assert parts[1..] == p;
      assert Reduce(parts, true, []) == Reduce(parts[1..], true, []);
    }
  }

  /*** The trie ***/

  /** A node; a terminal one holds the path that ends there. */
  datatype PathNode = PathNode(terminal: Option<string>, children: map<string, PathNode>)

  const BARE := PathNode(None, map[])

  function Child(n: PathNode, name: string): PathNode {
    if name in n.children then n.children[name] else BARE
  }

  function Lookup(n: PathNode, parts: seq<string>): Option<string>
    decreases parts
  {
    if parts == [] then n.terminal
    else if parts[0] in n.children then Lookup(n.children[parts[0]], parts[1..])
    else None
  }

  /** Below the root, every branch leads to a terminal node. */
  ghost predicate NoDeadBranch(n: PathNode) {
    forall c | c in n.children :: NoDeadBranch(n.children[c]) && !IsBare(n.children[c])
  }

  predicate IsBare(n: PathNode) {
    n.terminal.None? && n.children == map[]
  }

  function Insert(n: PathNode, parts: seq<string>, path: string): PathNode
    decreases parts
  {
    if parts == [] then PathNode(Some(path), n.children)
    else PathNode(n.terminal, n.children[parts[0] := Insert(Child(n, parts[0]), parts[1..], path)])
  }

  /** Unmarks the node at the parts; the flag tells the caller to drop the branch. */
  function Remove(n: PathNode, parts: seq<string>): (PathNode, bool)
    decreases parts
  {
    if parts == [] then
      (PathNode(None, n.children), n.children == map[])
    else if parts[0] !in n.children then
      (n, false)
    else
      var (child, drop) := Remove(n.children[parts[0]], parts[1..]);
      var children := if drop then n.children - {parts[0]} else n.children[parts[0] := child];
      (PathNode(n.terminal, children), n.terminal.None? && children == map[])
  }

  function Find(n: PathNode, parts: seq<string>): Option<PathNode>
    decreases parts
  {
    if parts == [] then Some(n)
    else if parts[0] in n.children then Find(n.children[parts[0]], parts[1..])
    else None
  }

  lemma LookupBare(parts: seq<string>)
    ensures Lookup(BARE, parts) == None
  {}

  lemma {:induction false} LookupInsert(n: PathNode, q: seq<string>, k: string, p: seq<string>)
    ensures Lookup(Insert(n, q, k), p) == if p == q then Some(k) else Lookup(n, p)
    decreases q
  {
    if q != [] && p != [] {
      assert p == [p[0]] + p[1..] && q == [q[0]] + q[1..];
      if p[0] == q[0] {
        LookupInsert(Child(n, q[0]), q[1..], k, p[1..]);
        LookupBare(p[1..]);
      }
    }
  }

  lemma {:induction false} InsertNoDeadBranch(n: PathNode, q: seq<string>, k: string)
    requires NoDeadBranch(n)
    ensures NoDeadBranch(Insert(n, q, k)) && !IsBare(Insert(n, q, k))
    decreases q
  {
    if q != [] {
      InsertNoDeadBranch(Child(n, q[0]), q[1..], k);
      assert q[0] in Insert(n, q, k).children;
    }
  }

  lemma {:induction false} LookupRemove(n: PathNode, q: seq<string>, p: seq<string>)
    requires NoDeadBranch(n)
    ensures Lookup(Remove(n, q).0, p) == if p == q then None else Lookup(n, p)
    ensures Remove(n, q).1 ==> IsBare(Remove(n, q).0)
    decreases q
  {
    if q != [] && q[0] in n.children {
      var child := n.children[q[0]];
      LookupRemove(child, q[1..], if p == [] then [] else p[1..]);
      if p != [] {
        assert p == [p[0]] + p[1..] && q == [q[0]] + q[1..];
        LookupBare(p[1..]);
      }
    }
  }

  lemma {:induction false} RemoveNoDeadBranch(n: PathNode, q: seq<string>)
    requires NoDeadBranch(n)
    ensures NoDeadBranch(Remove(n, q).0)
    ensures !IsBare(n) && !Remove(n, q).1 ==> !IsBare(Remove(n, q).0)
    decreases q
  {
    if q != [] && q[0] in n.children {
      RemoveNoDeadBranch(n.children[q[0]], q[1..]);
    }
  }

  lemma {:induction false} LookupFound(n: PathNode, q: seq<string>, e: seq<string>)
    ensures Lookup(n, q + e) == if Find(n, q).Some? then Lookup(Find(n, q).value, e) else None
    decreases q
  {
    if q == [] {
      assert q + e == e;
    } else {
      assert (q + e)[0] == q[0] && (q + e)[1..] == q[1..] + e;
      if q[0] in n.children {
        LookupFound(n.children[q[0]], q[1..], e);
      }
    }
  }

  /*** Collecting a subtree ***/

  /** The paths held below `n` have the parts that lead to them. */
  ghost predicate Keyed(n: PathNode, prefix: seq<string>) {
    forall q | Lookup(n, q).Some? :: PathParts(Lookup(n, q).value) == prefix + q
  }

  ghost predicate Holds(n: PathNode, k: string) {
    exists q :: Lookup(n, q) == Some(k)
  }

  lemma KeyedChild(n: PathNode, prefix: seq<string>, c: string)
    requires Keyed(n, prefix) && c in n.children
    ensures Keyed(n.children[c], prefix + [c])
  {
    forall q | Lookup(n.children[c], q).Some?
      ensures PathParts(Lookup(n.children[c], q).value) == prefix + [c] + q
    {
      assert ([c] + q)[1..] == q;
      assert Lookup(n, [c] + q) == Lookup(n.children[c], q);
      assert prefix + ([c] + q) == prefix + [c] + q;
    }
  }

  /** What the node itself and the children in `names` hold. */
  ghost predicate HoldsIn(n: PathNode, names: set<string>, k: string)
    requires names <= n.children.Keys
  {
    n.terminal == Some(k) || exists c | c in names :: Holds(n.children[c], k)
  }

  lemma HoldsInAll(n: PathNode, k: string)
    ensures HoldsIn(n, n.children.Keys, k) <==> Holds(n, k)
  {
    if Holds(n, k) {
      var q :| Lookup(n, q) == Some(k);
      if q != [] {
        assert Lookup(n.children[q[0]], q[1..]) == Some(k);
      }
    }
    if n.terminal == Some(k) {
      assert Lookup(n, []) == Some(k);
    }
    if c :| c in n.children && Holds(n.children[c], k) {
      var q :| Lookup(n.children[c], q) == Some(k);
      assert ([c] + q)[1..] == q;
      assert Lookup(n, [c] + q) == Some(k);
    }
  }

  /** What a child holds has the child's name behind the prefix. */
  lemma HeldByChild(n: PathNode, prefix: seq<string>, c: string, k: string)
    requires Keyed(n, prefix) && c in n.children && Holds(n.children[c], k)
    ensures |PathParts(k)| > |prefix| && PathParts(k)[|prefix|] == c
  {
    KeyedChild(n, prefix, c);
    var q :| Lookup(n.children[c], q) == Some(k);
    assert PathParts(k) == prefix + [c] + q;
  }

  /** What different children hold differs, and differs from what the node holds. */
  lemma HeldApart(n: PathNode, prefix: seq<string>, names: set<string>, c: string, k: string)
    requires Keyed(n, prefix) && names <= n.children.Keys && c in n.children && c !in names
    requires HoldsIn(n, names, k)
    ensures !Holds(n.children[c], k)
  {
    if n.terminal == Some(k) {
      assert Lookup(n, []) == Some(k);
      assert |PathParts(k)| == |prefix + []|;
    } else {
      var d :| d in names && Holds(n.children[d], k);
      HeldByChild(n, prefix, d, k);
    }
    if Holds(n.children[c], k) {
      HeldByChild(n, prefix, c, k);
    }
  }

  /** `paths` are what the node itself and the children in `names` hold, each once. */
  ghost predicate Lists(paths: seq<string>, n: PathNode, names: set<string>)
    requires names <= n.children.Keys
  {
    Distinct(paths) && forall k :: k in paths <==> HoldsIn(n, names, k)
  }

  /** The paths held in a subtree, each once, in whatever order the children come. */
  method Collect(n: PathNode, ghost prefix: seq<string>) returns (paths: seq<string>)
    requires Keyed(n, prefix)
    ensures Distinct(paths) && forall k :: k in paths <==> Holds(n, k)
    decreases n
  {
    paths := if n.terminal.Some? then [n.terminal.value] else [];
    var todo := n.children.Keys;
    ghost var names: set<string> := {};
    while todo != {}
      invariant todo <= n.children.Keys && names == n.children.Keys - todo
      invariant Lists(paths, n, names)
      decreases |todo|
    {
      var c :| c in todo;
      KeyedChild(n, prefix, c);
      var more := Collect(n.children[c], prefix + [c]);
      OneMoreChild(n, prefix, names, c, paths, more);
      paths := paths + more;
      todo := todo - {c};
      names := names + {c};
    }
    AllChildren(paths, n, names);
  }

  lemma AllChildren(paths: seq<string>, n: PathNode, names: set<string>)
    requires names == n.children.Keys && Lists(paths, n, names)
    ensures Distinct(paths) && forall k :: k in paths <==> Holds(n, k)
  {
    forall k
      ensures HoldsIn(n, names, k) <==> Holds(n, k)
    {
      HoldsInAll(n, k);
    }
  }

  lemma OneMoreChild(n: PathNode, prefix: seq<string>, names: set<string>, c: string, paths: seq<string>,
                     more: seq<string>)
    requires Keyed(n, prefix) && names <= n.children.Keys && c in n.children && c !in names
    requires Lists(paths, n, names)
    requires Distinct(more) && forall k :: k in more <==> Holds(n.children[c], k)
    ensures Lists(paths + more, n, names + {c})
  {
    forall k | k in paths
      ensures k !in more
    {
      HeldApart(n, prefix, names, c, k);
    }
    DistinctConcat(paths, more);
  }

  /*** The store ***/

  type Entry = (string, Meta)

  /** The trie holds exactly the keys of the map, each at its parts. */
  ghost predicate Agree(entries: map<string, Meta>, paths: PathNode) {
    && (forall k | k in entries :: Lookup(paths, PathParts(k)) == Some(k))
    && (forall q | Lookup(paths, q).Some? ::
          Lookup(paths, q).value in entries && PathParts(Lookup(paths, q).value) == q)
  }

  /** No other key has the same parts. */
  ghost predicate Alone(entries: map<string, Meta>, k: string) {
    forall j | j in entries && PathParts(j) == PathParts(k) :: j == k
  }

  /** Inserting keeps the agreement exactly if no differently spelled key has the same parts. */
  lemma InsertKeepsAgreement(entries: map<string, Meta>, paths: PathNode, k: string, m: Meta)
    requires Agree(entries, paths) && k !in entries
    ensures Agree(entries[k := m], Insert(paths, PathParts(k), k)) <==> Alone(entries, k)
  {
    var entries', paths' := entries[k := m], Insert(paths, PathParts(k), k);
    forall q
      ensures Lookup(paths', q) == if q == PathParts(k) then Some(k) else Lookup(paths, q)
    {
      LookupInsert(paths, PathParts(k), k, q);
    }
    if !Alone(entries, k) {
      var j :| j in entries && PathParts(j) == PathParts(k) && j != k;
      assert j in entries' && Lookup(paths', PathParts(j)) == Some(k);
    }
  }

  lemma RemoveKeepsAgreement(entries: map<string, Meta>, paths: PathNode, k: string)
    requires Agree(entries, paths) && NoDeadBranch(paths)
    ensures Agree(entries - {k}, Remove(paths, PathParts(k)).0) <==> Alone(entries, k)
  {
    var entries', paths' := entries - {k}, Remove(paths, PathParts(k)).0;
    forall q
      ensures Lookup(paths', q) == if q == PathParts(k) then None else Lookup(paths, q)
    {
      LookupRemove(paths, PathParts(k), q);
    }
    if !Alone(entries, k) {
      var j :| j in entries && PathParts(j) == PathParts(k) && j != k;
      assert j in entries' && Lookup(paths', PathParts(j)) == None;
    }
    if Alone(entries, k) {
      forall q | Lookup(paths', q).Some?
        ensures Lookup(paths', q).value in entries'
      {
        assert Lookup(paths, q).Some? && PathParts(Lookup(paths, q).value) == q;
      }
    }
  }

  /** What a map lookup yields for a key that is not there. */
  const NO_STATE := Meta("", Unknown, 0, 0, 0)

  class Store {
    var entries: map<string, Meta>
    var paths: PathNode

    /** Holds after any sequence of operations on any paths. */
    ghost predicate Valid()
      reads this
    {
      NoDeadBranch(paths) && Keyed(paths, [])
    }

    /** Map and trie hold the same paths. */
    ghost predicate InStep()
      reads this
    {
      Agree(entries, paths)
    }

    constructor ()
      ensures Valid() && InStep() && entries == map[]
    {
      entries := map[];
      paths := BARE;
      new;
      forall q
        ensures Lookup(BARE, q) == None
      {
        LookupBare(q);
      }
    }

    method Get(path: string) returns (m: Option<Meta>)
      ensures m == if path in entries then Some(entries[path]) else None
    {
      m := if path in entries then Some(entries[path]) else None;
    }

    /** Map and trie stay in step exactly if no other key has the same parts. */
    method Put(path: string, m: Meta)
      requires Valid()
      modifies this
      ensures Valid() && entries == old(entries)[path := m]
      ensures forall q :: Lookup(paths, q) ==
                            if old(path !in entries) && q == PathParts(path) then Some(path) else old(Lookup(paths, q))
      ensures old(InStep()) ==> (InStep() <==> old(path in entries || Alone(entries, path)))
    {
      if path !in entries {
        InsertNoDeadBranch(paths, PathParts(path), path);
        InsertKeyed(paths, path);
        InsertedAt(paths, path);
        if Agree(entries, paths) {
          InsertKeepsAgreement(entries, paths, path, m);
        }
        paths := Insert(paths, PathParts(path), path);
      }
      entries := entries[path := m];
    }

    /** Map and trie stay in step exactly if no other key has the same parts. */
    method Delete(path: string)
      requires Valid()
      modifies this
      ensures Valid() && entries == old(entries) - {path}
      ensures forall q :: Lookup(paths, q) == if q == PathParts(path) then None else old(Lookup(paths, q))
      ensures old(InStep()) ==> (InStep() <==> old(Alone(entries, path)))
    {
      RemoveNoDeadBranch(paths, PathParts(path));
      RemoveKeyed(paths, path);
      RemovedAt(paths, path);
      if Agree(entries, paths) {
        RemoveKeepsAgreement(entries, paths, path);
      }
      entries := entries - {path};
      paths := Remove(paths, PathParts(path)).0;
    }

    /** Deletes and puts in turn.  Map and trie stay in step exactly if no path that stays is
        spelled differently from a deleted one with the same parts, and no two paths that are
        there in the end have the same parts. */
    method Apply(puts: seq<Entry>, deletes: seq<string>)
      requires Valid()
      modifies this
      ensures Valid() && entries == AfterPuts(old(entries) - Elements(deletes), puts, |puts|)
      ensures old(InStep()) ==>
                (InStep() <==> SparedByDeletes(old(entries), deletes, |deletes|) && Apart(entries.Keys))
    {
      DeleteAll(deletes);
      PutAll(puts);
    }

    /** In step after all deletes exactly if no path that stays has the parts of a deleted one. */
    method DeleteAll(deletes: seq<string>)
      requires Valid()
      modifies this
      ensures Valid() && entries == old(entries) - Elements(deletes)
      ensures old(InStep()) ==> (InStep() <==> SparedByDeletes(old(entries), deletes, |deletes|))
      ensures old(InStep()) && !InStep() ==> exists k :: Lost(entries, paths, k)
    {
      for i := 0 to |deletes|
        invariant Valid()
        invariant entries == AfterDeletes(old(entries), deletes, i)
        invariant forall q :: Lookup(paths, q) == if PartsAmong(deletes, i, q) then None else old(Lookup(paths, q))
      {
        Delete(deletes[i]);
      }
      AllDeleted(old(entries), deletes, |deletes|);
      if old(InStep()) {
        SparedExactly(old(entries), old(paths), deletes, entries, paths);
      }
    }

    /** What was lost stays lost; otherwise in step exactly if no two paths have the same parts. */
    method PutAll(puts: seq<Entry>)
      requires Valid()
      modifies this
      ensures Valid() && entries == AfterPuts(old(entries), puts, |puts|)
      ensures forall k | old(Lost(entries, paths, k)) :: Lost(entries, paths, k)
      ensures old(InStep()) ==> (InStep() <==> Apart(entries.Keys))
    {
      if InStep() {
        InStepIsApart(entries, paths);
      }
      for i := 0 to |puts|
        invariant Valid()
        invariant entries == AfterPuts(old(entries), puts, i)
        invariant forall k | old(Lost(entries, paths, k)) :: Lost(entries, paths, k)
        invariant old(InStep()) ==> (InStep() <==> Apart(entries.Keys))
      {
        var (path, m) := puts[i];
        ghost var was, trie := entries, paths;
        Put(path, m);
        StillLost(was, trie, entries, paths, path);
        OnePutMore(was, entries, path, m);
        if InStep() {
          InStepIsApart(entries, paths);
        }
      }
    }

    /** The paths that the trie holds under the parts of the scope, each once, in order; if map
        and trie are in step, these are the entries whose parts extend those of the scope. */
    method WalkScope(scope: string) returns (keys: seq<string>, states: seq<Meta>)
      requires Valid()
      ensures Ordered(keys, Less) && forall k :: k in keys <==> HoldsUnder(paths, PathParts(scope), k)
      ensures |states| == |keys|
      ensures forall i | 0 <= i < |keys| :: states[i] == if keys[i] in entries then entries[keys[i]] else NO_STATE
      ensures InStep() ==> keys == SortedIds(Within(entries, scope)) && forall k | k in keys :: k in entries
      ensures InStep() && Clean(scope) && (forall k | k in entries :: Clean(k)) ==>
                keys == SortedIds(set k | k in entries && HasPrefix(k, scope))
    {
      var parts := PathParts(scope);
      var node := Find(paths, parts);
      if node.None? {
        NothingFound(paths, parts);
        keys, states := [], [];
      } else {
        FoundKeyed(paths, parts);
        var found := Collect(node.value, parts);
        keys := SortIds(Elements(found));
        SortedIdsOrdered(Elements(found));
        FoundAll(paths, parts, found);
        states := StatesOf(entries, keys);
      }
      if Agree(entries, paths) {
        HeldUnderScope(entries, paths, scope, keys);
        if Clean(scope) && forall k | k in entries :: Clean(k) {
          WithinIsUnderPrefix(entries, scope);
        }
      }
    }
  }

  /** One of the first `n` paths has the parts `q`. */
  ghost predicate PartsAmong(deletes: seq<string>, n: nat, q: seq<string>)
    requires n <= |deletes|
  {
    n > 0 && (PathParts(deletes[n - 1]) == q || PartsAmong(deletes, n - 1, q))
  }

  lemma {:induction false} PartsOfDeleted(deletes: seq<string>, n: nat, k: string)
    requires n <= |deletes| && k in deletes[..n]
    ensures PartsAmong(deletes, n, PathParts(k))
  {
    if deletes[n - 1] != k {
      PartsOfDeleted(deletes, n - 1, k);
    }
  }

  /** No path that stays has the parts of one of the first `n` deleted ones. */
  ghost predicate SparedByDeletes(entries: map<string, Meta>, deletes: seq<string>, n: nat)
    requires n <= |deletes|
  {
    forall k | k in entries && k !in deletes :: !PartsAmong(deletes, n, PathParts(k))
  }

  /** Cleanly spelled paths spare each other. */
  lemma ApartIsSpared(entries: map<string, Meta>, deletes: seq<string>, n: nat)
    requires n <= |deletes| && Apart(entries.Keys + Elements(deletes))
    ensures SparedByDeletes(entries, deletes, n)
  {
    forall k | k in entries && k !in deletes
      ensures !PartsAmong(deletes, n, PathParts(k))
    {
      PartsElsewhere(deletes, n, k, entries.Keys + Elements(deletes));
    }
  }

  lemma {:induction false} PartsElsewhere(deletes: seq<string>, n: nat, k: string, all: set<string>)
    requires n <= |deletes| && Apart(all) && k in all && k !in deletes && Elements(deletes) <= all
    ensures !PartsAmong(deletes, n, PathParts(k))
  {
    if n > 0 {
      PartsElsewhere(deletes, n - 1, k, all);
      assert deletes[n - 1] in Elements(deletes);
    }
  }

  /** The trie does not hold the key where it belongs. */
  ghost predicate Lost(entries: map<string, Meta>, paths: PathNode, k: string) {
    k in entries && Lookup(paths, PathParts(k)) != Some(k)
  }

  lemma SparedExactly(entries: map<string, Meta>, paths: PathNode, deletes: seq<string>,
                      entries': map<string, Meta>, paths': PathNode)
    requires Agree(entries, paths) && entries' == entries - Elements(deletes)
    requires forall q :: Lookup(paths', q) == if PartsAmong(deletes, |deletes|, q) then None else Lookup(paths, q)
    ensures Agree(entries', paths') <==> SparedByDeletes(entries, deletes, |deletes|)
    ensures !Agree(entries', paths') ==> exists k :: Lost(entries', paths', k)
  {
    assert deletes[..|deletes|] == deletes;
    forall k | k in deletes
      ensures PartsAmong(deletes, |deletes|, PathParts(k))
    {
      PartsOfDeleted(deletes, |deletes|, k);
    }
    forall q | Lookup(paths', q).Some?
      ensures Lookup(paths', q).value in entries' && PathParts(Lookup(paths', q).value) == q
    {
      assert !PartsAmong(deletes, |deletes|, q);
    }
    if k :| k in entries' && PartsAmong(deletes, |deletes|, PathParts(k)) {
      assert Lost(entries', paths', k);
    } else {
      assert forall k | k in entries' :: Lookup(paths', PathParts(k)) == Some(k);
    }
  }

  lemma StillLost(entries: map<string, Meta>, paths: PathNode, entries': map<string, Meta>, paths': PathNode,
                  path: string)
    requires entries.Keys <= entries'.Keys
    requires forall q :: Lookup(paths', q) ==
                           if path !in entries && q == PathParts(path) then Some(path) else Lookup(paths, q)
    ensures forall k | Lost(entries, paths, k) :: Lost(entries', paths', k)
  {}

  /** What the trie holds in step has pairwise different parts. */
  lemma InStepIsApart(entries: map<string, Meta>, paths: PathNode)
    requires Agree(entries, paths)
    ensures Apart(entries.Keys)
  {}

  lemma OnePutMore(entries: map<string, Meta>, entries': map<string, Meta>, path: string, m: Meta)
    requires entries' == entries[path := m]
    ensures Apart(entries'.Keys) <==> Apart(entries.Keys) && (path in entries || Alone(entries, path))
  {
    if Apart(entries'.Keys) {
      assert forall j | j in entries :: j in entries'.Keys;
      assert path in entries'.Keys;
    }
  }

  lemma InsertedAt(paths: PathNode, k: string)
    ensures forall q :: Lookup(Insert(paths, PathParts(k), k), q) ==
                          if q == PathParts(k) then Some(k) else Lookup(paths, q)
  {
    forall q
      ensures Lookup(Insert(paths, PathParts(k), k), q) == if q == PathParts(k) then Some(k) else Lookup(paths, q)
    {
      LookupInsert(paths, PathParts(k), k, q);
    }
  }

  lemma RemovedAt(paths: PathNode, k: string)
    requires NoDeadBranch(paths)
    ensures forall q :: Lookup(Remove(paths, PathParts(k)).0, q) ==
                          if q == PathParts(k) then None else Lookup(paths, q)
  {
    forall q
      ensures Lookup(Remove(paths, PathParts(k)).0, q) == if q == PathParts(k) then None else Lookup(paths, q)
    {
      LookupRemove(paths, PathParts(k), q);
    }
  }

  method StatesOf(entries: map<string, Meta>, keys: seq<string>) returns (states: seq<Meta>)
    ensures |states| == |keys|
    ensures forall i | 0 <= i < |keys| :: states[i] == if keys[i] in entries then entries[keys[i]] else NO_STATE
  {
    states := [];
    for i := 0 to |keys|
      invariant |states| == i
      invariant forall j | 0 <= j < i :: states[j] == if keys[j] in entries then entries[keys[j]] else NO_STATE
    {
      states := states + [if keys[i] in entries then entries[keys[i]] else NO_STATE];
    }
  }

  ghost predicate Apart(ks: set<string>) {
    forall j, k | j in ks && k in ks && PathParts(j) == PathParts(k) :: j == k
  }

  ghost function AfterPuts(entries: map<string, Meta>, puts: seq<Entry>, n: nat): map<string, Meta>
    requires n <= |puts|
  {
    if n == 0 then entries else AfterPuts(entries, puts, n - 1)[puts[n - 1].0 := puts[n - 1].1]
  }

  ghost function AfterDeletes(entries: map<string, Meta>, deletes: seq<string>, n: nat): map<string, Meta>
    requires n <= |deletes|
  {
    if n == 0 then entries else AfterDeletes(entries, deletes, n - 1) - {deletes[n - 1]}
  }

  lemma {:induction false} AllDeleted(entries: map<string, Meta>, deletes: seq<string>, n: nat)
    requires n <= |deletes|
    ensures AfterDeletes(entries, deletes, n) == entries - Elements(deletes[..n])
    ensures n == |deletes| ==> deletes[..n] == deletes
  {
    if n > 0 {
      AllDeleted(entries, deletes, n - 1);
      assert deletes[..n] == deletes[..n - 1] + [deletes[n - 1]];
    }
  }

  ghost function Within(entries: map<string, Meta>, scope: string): set<string> {
    set k | k in entries && PathParts(scope) <= PathParts(k)
  }

  /** The trie holds `k` somewhere under the parts `q`. */
  ghost predicate HoldsUnder(paths: PathNode, q: seq<string>, k: string) {
    exists p :: q <= p && Lookup(paths, p) == Some(k)
  }

  lemma NothingFound(paths: PathNode, q: seq<string>)
    requires Find(paths, q).None?
    ensures forall k :: !HoldsUnder(paths, q, k)
  {
    forall p | q <= p
      ensures Lookup(paths, p) == None
    {
      LookupFound(paths, q, p[|q|..]);
      assert q + p[|q|..] == p;
    }
  }

  lemma FoundKeyed(paths: PathNode, q: seq<string>)
    requires Keyed(paths, []) && Find(paths, q).Some?
    ensures Keyed(Find(paths, q).value, q)
  {
    forall e | Lookup(Find(paths, q).value, e).Some?
      ensures PathParts(Lookup(Find(paths, q).value, e).value) == q + e
    {
      LookupFound(paths, q, e);
      assert [] + (q + e) == q + e;
    }
  }

  lemma FoundAll(paths: PathNode, q: seq<string>, found: seq<string>)
    requires Find(paths, q).Some?
    requires forall k :: k in found <==> Holds(Find(paths, q).value, k)
    ensures forall k :: k in found <==> HoldsUnder(paths, q, k)
  {
    var node := Find(paths, q).value;
    forall k
      ensures Holds(node, k) <==> HoldsUnder(paths, q, k)
    {
      if Holds(node, k) {
        var e :| Lookup(node, e) == Some(k);
        LookupFound(paths, q, e);
        assert q <= q + e;
      }
      if HoldsUnder(paths, q, k) {
        var p :| q <= p && Lookup(paths, p) == Some(k);
        LookupFound(paths, q, p[|q|..]);
        assert q + p[|q|..] == p;
      }
    }
  }

  lemma HeldUnderScope(entries: map<string, Meta>, paths: PathNode, scope: string, keys: seq<string>)
    requires Agree(entries, paths) && Ordered(keys, Less)
    requires forall k :: k in keys <==> HoldsUnder(paths, PathParts(scope), k)
    ensures keys == SortedIds(Within(entries, scope)) && forall k | k in keys :: k in entries
  {
    SortedIdsUnique(keys, Within(entries, scope));
  }

  lemma InsertKeyed(paths: PathNode, k: string)
    requires Keyed(paths, [])
    ensures Keyed(Insert(paths, PathParts(k), k), [])
  {
    InsertedAt(paths, k);
  }

  lemma RemoveKeyed(paths: PathNode, k: string)
    requires NoDeadBranch(paths) && Keyed(paths, [])
    ensures Keyed(Remove(paths, PathParts(k)).0, [])
  {
    RemovedAt(paths, k);
  }

  /*** Cleanly spelled paths ***/

  /** Different cleaned absolute paths have different parts. */
  lemma CleanPathsAreApart(ps: set<Path>)
    requires forall p | p in ps :: Paths.Valid(p)
    ensures Apart(set p | p in ps :: Render(p))
  {
    forall p, q | p in ps && q in ps && PathParts(Render(p)) == PathParts(Render(q))
      ensures Render(p) == Render(q)
    {
      CleanParts(p);
      CleanParts(q);
      assert (["/"] + p)[1..] == p && (["/"] + q)[1..] == q;
    }
  }

  /** For them the trie walk selects by the textual prefix test. */
  lemma WithinIsPrefixTest(p: Path, q: Path)
    requires Paths.Valid(p) && Paths.Valid(q) && NoBackslash(p)
    ensures PathParts(Render(q)) <= PathParts(Render(p)) <==> HasPrefix(Render(p), Render(q))
  {
    CleanParts(p);
    CleanParts(q);
    HasPrefixIsAncestor(p, q);
    assert q <= p <==> ["/"] + q <= ["/"] + p by {
      assert (["/"] + p)[1..] == p && (["/"] + q)[1..] == q;
    }
  }

  /** The text of a cleaned absolute path without backslashes. */
  ghost predicate Clean(k: string) {
    exists p :: Paths.Valid(p) && NoBackslash(p) && Render(p) == k
  }

  lemma WithinIsUnderPrefix(entries: map<string, Meta>, scope: string)
    requires Clean(scope) && forall k | k in entries :: Clean(k)
    ensures Within(entries, scope) == set k | k in entries && HasPrefix(k, scope)
  {
    var q :| Paths.Valid(q) && NoBackslash(q) && Render(q) == scope;
    forall k | k in entries
      ensures PathParts(scope) <= PathParts(k) <==> HasPrefix(k, scope)
    {
      var p :| Paths.Valid(p) && NoBackslash(p) && Render(p) == k;
      WithinIsPrefixTest(p, q);
    }
  }

  /** Two spellings of one path: putting both leaves the map with two keys and the trie with one. */
  lemma SpellingsCollide()
    ensures PathParts("/a") == PathParts("//a")
    ensures !Alone(map["/a" := Meta("", Regular, 0, 0, 0)], "//a")
  {
    assert Split("//a") == [""] + Split("//a"[1..]) && "//a"[1..] == "/a";
    var parts := Split("//a");
    assert parts[1..] == Split("/a");
    assert Reduce(parts, true, []) == Reduce(parts[1..], true, []);
    assert PathParts("//a") == ["/"] + Reduce(parts, true, []);
  }
}
