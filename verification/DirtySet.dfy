/** The trie of dirty subtrees, against the topmost members of the set of added paths. */
module DirtySet {
  import opened Paths
  import opened Sorting
  import opened Entries
  import opened Scopes

  datatype Node = Node(dirty: bool, children: map<string, Node>)

  const FRESH := Node(false, map[])

  function Child(n: Node, name: string): Node {
    if name in n.children then n.children[name] else FRESH
  }

  /** The node at the path is there and dirty. */
  predicate IsDirty(n: Node, p: Path)
    decreases p
  {
    if p == [] then n.dirty else p[0] in n.children && IsDirty(n.children[p[0]], p[1..])
  }

  /** No dirty node has anything below it, and every branch ends in a dirty node. */
  ghost predicate Minimal(n: Node) {
    && (n.dirty ==> n.children == map[])
    && forall c | c in n.children :: Minimal(n.children[c]) && Live(n.children[c])
  }

  predicate Live(n: Node) {
    n.dirty || n.children != map[]
  }

  ghost function Dirties(n: Node): set<Path> {
    (if n.dirty then {[]} else {}) + DirtiesBelow(n, n.children.Keys)
  }

  ghost function DirtiesBelow(n: Node, names: set<string>): set<Path>
    requires names <= n.children.Keys
    decreases n, 0
  {
    set c, q | c in names && q in Dirties(n.children[c]) :: [c] + q
  }

  function Shift(p: Path, s: set<Path>): set<Path> {
    set q | q in s :: p + q
  }

  lemma {:induction false} InDirties(n: Node, p: Path)
    ensures p in Dirties(n) <==> IsDirty(n, p)
    decreases p
  {
    if p != [] {
      assert p == [p[0]] + p[1..];
      if p[0] in n.children {
        InDirties(n.children[p[0]], p[1..]);
      }
      if p in Dirties(n) {
        assert p in DirtiesBelow(n, n.children.Keys);
        var c, q :| c in n.children && q in Dirties(n.children[c]) && p == [c] + q;
        assert c == p[0] && q == p[1..];
      }
    }
  }

  /*** Adding ***/

  /** Marks the node at `q` dirty and drops what is below it, unless a dirty node is met. */
  function AddAt(n: Node, q: Path): Node
    decreases q
  {
    if n.dirty then n
    else if q == [] then Node(true, map[])
    else Node(false, n.children[q[0] := AddAt(Child(n, q[0]), q[1..])])
  }

  predicate MeetsDirty(n: Node, q: Path)
    decreases q
  {
    n.dirty || (q != [] && q[0] in n.children && MeetsDirty(n.children[q[0]], q[1..]))
  }

  lemma {:induction false} MeetsDirtyIsCovered(n: Node, q: Path)
    ensures MeetsDirty(n, q) <==> Covers(Dirties(n), q)
    decreases q
  {
    if n.dirty {
      assert [] in Dirties(n) && Above([], q);
    } else if q != [] && q[0] in n.children {
      var child := n.children[q[0]];
      MeetsDirtyIsCovered(child, q[1..]);
      if Covers(Dirties(child), q[1..]) {
        var d :| d in Dirties(child) && Above(d, q[1..]);
        assert [q[0]] + d in Dirties(n) && Above([q[0]] + d, q);
      }
    }
    if Covers(Dirties(n), q) && !n.dirty {
      var d :| d in Dirties(n) && Above(d, q);
      InDirties(n, d);
      InDirties(n.children[d[0]], d[1..]);
      assert Above(d[1..], q[1..]);
    }
  }

  lemma {:induction false} AddAtDirties(n: Node, q: Path, p: Path)
    requires Minimal(n)
    ensures IsDirty(AddAt(n, q), p) <==>
              if MeetsDirty(n, q) then IsDirty(n, p) else p == q || (IsDirty(n, p) && !Above(q, p))
    decreases q
  {
    if !n.dirty && q != [] {
      var c, child := q[0], Child(n, q[0]);
      assert q == [c] + q[1..];
      if p != [] && p[0] == c {
        assert p == [c] + p[1..];
        AddAtDirties(child, q[1..], p[1..]);
        assert Above(q, p) <==> Above(q[1..], p[1..]);
      }
    }
  }

  lemma {:induction false} AddAtMinimal(n: Node, q: Path)
    requires Minimal(n)
    ensures Minimal(AddAt(n, q)) && Live(AddAt(n, q))
    ensures MeetsDirty(n, q) && Live(n) ==> AddAt(n, q) == n
    decreases q
  {
    if !n.dirty && q != [] {
      AddAtMinimal(Child(n, q[0]), q[1..]);
      assert q[0] in AddAt(n, q).children;
    }
  }

  /** Adding to the trie is adding to the minimal set. */
  lemma AddAtAbsorbs(n: Node, q: Path)
    requires Minimal(n)
    ensures Dirties(AddAt(n, q)) == Absorb(Dirties(n), q)
  {
    MeetsDirtyIsCovered(n, q);
    forall p
      ensures p in Dirties(AddAt(n, q)) <==> p in Absorb(Dirties(n), q)
    {
      InDirties(AddAt(n, q), p);
      InDirties(n, p);
      AddAtDirties(n, q, p);
    }
  }

  /*** Counting ***/

  lemma {:induction false} ShiftSize(p: Path, s: set<Path>)
    ensures |Shift(p, s)| == |s|
    decreases |s|
  {
    if s != {} {
      var q :| q in s;
      ShiftSize(p, s - {q});
      forall r | r in s - {q}
        ensures p + r != p + q
      {
        assert (p + r)[|p|..] == r && (p + q)[|p|..] == q;
      }
      assert Shift(p, s) == Shift(p, s - {q}) + {p + q};
    }
  }

  lemma MoreNames(n: Node, names: set<string>, c: string)
    requires names <= n.children.Keys && c in n.children && c !in names
    ensures |DirtiesBelow(n, names + {c})| == |DirtiesBelow(n, names)| + |Dirties(n.children[c])|
  {
    var a, b := DirtiesBelow(n, names), Shift([c], Dirties(n.children[c]));
    assert DirtiesBelow(n, names + {c}) == a + b;
    ShiftSize([c], Dirties(n.children[c]));
    forall p | p in a
      ensures p !in b
    {
      assert p[0] in names;
    }
    assert |a + b| == |a| + |b|;
  }

  method CountDirty(n: Node) returns (count: nat)
    ensures count == |Dirties(n)|
    decreases n
  {
    count := if n.dirty then 1 else 0;
    var todo := n.children.Keys;
    ghost var names: set<string> := {};
    while todo != {}
      invariant todo <= n.children.Keys && names == n.children.Keys - todo
      invariant count == (if n.dirty then 1 else 0) + |DirtiesBelow(n, names)|
      decreases |todo|
    {
      var c :| c in todo;
      var k := CountDirty(n.children[c]);
      MoreNames(n, names, c);
      count := count + k;
      todo := todo - {c};
      names := names + {c};
    }
    assert names == n.children.Keys;
    OwnAndBelow(n);
  }

  lemma OwnAndBelow(n: Node)
    ensures |Dirties(n)| == (if n.dirty then 1 else 0) + |DirtiesBelow(n, n.children.Keys)|
  {
    var below := DirtiesBelow(n, n.children.Keys);
    if n.dirty {
      assert [] !in below;
      assert Dirties(n) == below + {[]};
    } else {
      assert Dirties(n) == below;
    }
  }

  function Find(n: Node, q: Path): Node
    decreases q
  {
    if q == [] then n else Find(Child(n, q[0]), q[1..])
  }

  lemma {:induction false} DirtyUnder(n: Node, q: Path, e: Path)
    ensures IsDirty(n, q + e) <==> IsDirty(Find(n, q), e)
    decreases q
  {
    if q == [] {
      assert q + e == e;
    } else {
      assert (q + e)[0] == q[0] && (q + e)[1..] == q[1..] + e;
      DirtyUnder(Child(n, q[0]), q[1..], e);
    }
  }

  /** What lies under `q` is what the node at `q` holds. */
  lemma FoundIsUnder(n: Node, q: Path)
    ensures (set d | d in Dirties(n) && Above(q, d)) == Shift(q, Dirties(Find(n, q)))
  {
    forall d
      ensures d in Dirties(n) && Above(q, d) <==> d in Shift(q, Dirties(Find(n, q)))
    {
      if Above(q, d) {
        var e := d[|q|..];
        assert d == q + e;
        InDirties(n, d);
        DirtyUnder(n, q, e);
        InDirties(Find(n, q), e);
        assert d in Shift(q, Dirties(Find(n, q))) ==> exists e' :: e' in Dirties(Find(n, q)) && d == q + e';
        forall e' | d == q + e'
          ensures e' == e
        {}
      }
    }
  }

  lemma AddAtSize(n: Node, q: Path)
    requires Minimal(n) && !MeetsDirty(n, q)
    ensures |Dirties(AddAt(n, q))| == |Dirties(n)| + 1 - |Dirties(Find(n, q))|
  {
    MeetsDirtyIsCovered(n, q);
    AddAtAbsorbs(n, q);
    FoundIsUnder(n, q);
    ShiftSize(q, Dirties(Find(n, q)));
    AbsorbSize(Dirties(n), q);
  }

  lemma AbsorbSize(all: set<Path>, q: Path)
    requires !Covers(all, q)
    ensures |Absorb(all, q)| == |all| + 1 - |set d | d in all && Above(q, d)|
  {
    var under := set d | d in all && Above(q, d);
    var kept := set d | d in all && !Above(q, d);
    assert all == under + kept;
    assert |all| == |under| + |kept|;
    assert q !in kept by {
      assert Above(q, q);
    }
    assert Absorb(all, q) == kept + {q};
  }

  /*** Collecting ***/

  /** The dirty paths below `path`, each once, in whatever order the children come. */
  method Collect(n: Node, path: Path) returns (paths: seq<Path>)
    requires Minimal(n)
    ensures Distinct(paths) && Elements(paths) == Shift(path, Dirties(n))
    decreases n, 1
  {
    if n.dirty {
      paths := [path];
      assert Dirties(n) == {[]} && path + [] == path;
    } else {
      paths := CollectChildren(n, path);
      assert Dirties(n) == DirtiesBelow(n, n.children.Keys);
    }
  }

  method CollectChildren(n: Node, path: Path) returns (paths: seq<Path>)
    requires Minimal(n)
    ensures Distinct(paths) && Elements(paths) == Shift(path, DirtiesBelow(n, n.children.Keys))
    decreases n, 0
  {
    paths := [];
    var todo := n.children.Keys;
    ghost var names: set<string> := {};
    while todo != {}
      invariant todo <= n.children.Keys && names == n.children.Keys - todo
      invariant Distinct(paths)
      invariant Elements(paths) == Shift(path, DirtiesBelow(n, names))
      decreases |todo|
    {
      var name :| name in todo;
      var more := Collect(n.children[name], path + [name]);
      OneMoreChild(n, path, names, name);
      DistinctConcat(paths, more);
      paths := paths + more;
      todo := todo - {name};
      names := names + {name};
    }
    assert names == n.children.Keys;
  }

  lemma OneMoreChild(n: Node, path: Path, names: set<string>, name: string)
    requires names <= n.children.Keys && name in n.children && name !in names
    ensures Shift(path, DirtiesBelow(n, names + {name}))
         == Shift(path, DirtiesBelow(n, names)) + Shift(path + [name], Dirties(n.children[name]))
    ensures Shift(path, DirtiesBelow(n, names)) !! Shift(path + [name], Dirties(n.children[name]))
  {
    var a, b := DirtiesBelow(n, names), Dirties(n.children[name]);
    assert DirtiesBelow(n, names + {name}) == a + Shift([name], b);
    forall q | q in b
      ensures path + [name] + q == path + ([name] + q)
    {}
    assert Shift(path, Shift([name], b)) == Shift(path + [name], b);
    forall x, y | x in a && y in b
      ensures path + x != path + [name] + y
    {
      assert (path + x)[|path|] == x[0] && (path + [name] + y)[|path|] == name;
      assert x[0] in names;
    }
  }

  /*** The set ***/

  class Set {
    const root: Path
    var tree: Node
    var size: nat
    /** The paths added since the last drain, as far as they lie within the root. */
    ghost var added: set<Path>

    ghost predicate Valid()
      reads this
    {
      && Minimal(tree)
      && size == |Dirties(tree)|
      && (forall p | p in added :: Above(root, p))
      && Shift(root, Dirties(tree)) == Top(added)
    }

    constructor (root: Path)
      ensures Valid() && this.root == root && added == {}
    {
      this.root := root;
      tree := FRESH;
      size := 0;
      added := {};
    }

    /** Adds a path; a path outside the root dirties the root.  The answer tells whether the
        minimal set changed. */
    method Add(path: Path) returns (changed: bool)
      requires Valid()
      modifies this
      ensures Valid()
      ensures added == old(added) + {Clamp(root, path)}
      ensures changed <==> Top(added) != Top(old(added))
    {
      var relative := Clamp(root, path)[|root|..];
      ghost var p := Clamp(root, path);
      assert p == root + relative;
      changed := !MeetsDirty(tree, relative);
      AddedToTop(root, tree, added, relative);
      AddAtMinimal(tree, relative);
      if changed {
        AddAtSize(tree, relative);
        var removed := CountDirty(Find(tree, relative));
        size := size + 1 - removed;
        tree := AddAt(tree, relative);
      }
      added := added + {p};
    }

    /** The number of subtrees to reconcile. */
    method Len() returns (n: nat)
      requires Valid()
      ensures n == |Top(added)|
    {
      ShiftSize(root, Dirties(tree));
      n := size;
    }

    /** Hands out the topmost added paths, sorted, and starts over. */
    method Drain() returns (paths: seq<Path>)
      requires Valid()
      modifies this
      ensures Valid() && added == {}
      ensures paths == SortedPaths(Top(old(added))) && |paths| == old(size)
    {
      var collected := Collect(tree, root);
      paths := SortPaths(Elements(collected));
      ShiftSize(root, Dirties(tree));
      SortedPathsOrdered(Top(added));
      tree := FRESH;
      size := 0;
      added := {};
    }
  }

  lemma AddedToTop(root: Path, tree: Node, added: set<Path>, relative: Path)
    requires Minimal(tree) && Shift(root, Dirties(tree)) == Top(added)
    ensures Shift(root, Dirties(AddAt(tree, relative))) == Top(added + {root + relative})
    ensures !MeetsDirty(tree, relative) <==> Top(added + {root + relative}) != Top(added)
    ensures MeetsDirty(tree, relative) ==> Dirties(AddAt(tree, relative)) == Dirties(tree)
  {
    var d := Dirties(tree);
    AddAtAbsorbs(tree, relative);
    MeetsDirtyIsCovered(tree, relative);
    TopAbsorbs(added, root + relative);
    TopCovers(added, root + relative);
    ShiftAbsorbs(root, d, relative);
  }

  lemma ShiftAbsorbs(root: Path, d: set<Path>, q: Path)
    ensures Covers(Shift(root, d), root + q) <==> Covers(d, q)
    ensures Shift(root, Absorb(d, q)) == Absorb(Shift(root, d), root + q)
  {
    forall a, b
      ensures Above(root + a, root + b) <==> Above(a, b)
    {
      assert (root + a)[|root|..] == a && (root + b)[|root|..] == b;
    }
    if Covers(d, q) {
      var a :| a in d && Above(a, q);
      assert root + a in Shift(root, d);
    }
  }

  /** What is drained passes the collapsing of scopes unchanged, in the same order. */
  lemma DrainedScopesCollapseToThemselves(root: Path, added: set<Path>)
    requires forall p | p in added :: Above(root, p)
    ensures var drained := SortedPaths(Top(added));
            Elements(drained) == Top(added) && Collapse(root, drained, |drained|) == drained
  {
    SortedPathsDistinct(Top(added));
    PassThrough(root, added, SortedPaths(Top(added)));
  }

  lemma PassThrough(root: Path, added: set<Path>, xs: seq<Path>)
    requires forall p | p in added :: Above(root, p)
    requires Distinct(xs) && forall p :: p in xs <==> p in Top(added)
    ensures Elements(xs) == Top(added) && Collapse(root, xs, |xs|) == xs
  {
    forall i, j | 0 <= i < |xs| && 0 <= j < |xs| && i != j
      ensures !Above(xs[i], xs[j])
    {
      assert xs[i] in xs && xs[j] in xs;
    }
    forall i | 0 <= i < |xs|
      ensures Above(root, xs[i])
    {
      assert xs[i] in xs;
    }
    CollapseKeepsMinimal(root, xs, |xs|);
    assert xs[..|xs|] == xs;
  }
}
