/** The recursive scan that follows symbolic links: directories form a graph, possibly with
    cycles, and every directory identity is expanded once. */
module Scanner {
  import opened Paths
  import opened Sorting

  /** What a directory entry leads to once links are followed. */
  datatype Target = File | Dir(id: string)

  datatype DirEntry = DirEntry(name: string, target: Target)

  /** A place in a listing. */
  datatype Slot = Slot(dir: string, index: int)

  /** The listing of every directory, by identity. */
  type Graph = map<string, seq<DirEntry>>

  ghost predicate Closed(g: Graph) {
    forall d, i | d in g && 0 <= i < |g[d]| && g[d][i].target.Dir? :: g[d][i].target.id in g
  }

  /** No listing has a name twice. */
  ghost predicate ProperNames(g: Graph) {
    forall d, i, j | d in g && 0 <= i < j < |g[d]| :: g[d][i].name != g[d][j].name
  }

  /*** Specification: reachability ***/

  ghost predicate Edge(g: Graph, a: string, b: string) {
    a in g && exists i | 0 <= i < |g[a]| :: g[a][i].target == Dir(b)
  }

  ghost predicate Trail(g: Graph, t: seq<string>) {
    t != [] && forall i | 0 <= i < |t| - 1 :: Edge(g, t[i], t[i + 1])
  }

  ghost predicate Reachable(g: Graph, a: string, b: string) {
    exists t :: Trail(g, t) && t[0] == a && t[|t| - 1] == b
  }

  lemma ReachableSelf(g: Graph, a: string)
    ensures Reachable(g, a, a)
  {
    assert Trail(g, [a]) && [a][0] == a;
  }

  lemma ReachableVia(g: Graph, a: string, b: string, c: string)
    requires Edge(g, a, b) && Reachable(g, b, c)
    ensures Reachable(g, a, c)
  {
    var t :| Trail(g, t) && t[0] == b && t[|t| - 1] == c;
    var u := [a] + t;
    assert Trail(g, u) && u[0] == a && u[|u| - 1] == c;
  }

  /** A set that no edge leaves holds all that is reachable from it. */
  lemma {:induction false} ClosedSetHoldsTrail(g: Graph, s: set<string>, t: seq<string>)
    requires forall x, y | x in s && Edge(g, x, y) :: y in s
    requires Trail(g, t) && t[0] in s
    ensures t[|t| - 1] in s
  {
    if |t| > 1 {
      assert Edge(g, t[0], t[1]);
      var u := t[1..];
      forall i | 0 <= i < |u| - 1
        ensures Edge(g, u[i], u[i + 1])
      {
        assert u[i] == t[i + 1] && u[i + 1] == t[i + 1 + 1];
      }
      ClosedSetHoldsTrail(g, s, u);
    }
  }

  /** The names lead from the directory `a` to the entry `e`. */
  ghost predicate Leads(g: Graph, a: string, names: Path, e: Slot)
    decreases |names|
  {
    && e.dir in g && 0 <= e.index < |g[e.dir]| && a in g && names != []
    && if |names| == 1 then a == e.dir && names[0] == g[a][e.index].name
       else exists j | 0 <= j < |g[a]| ::
              g[a][j].name == names[0] && g[a][j].target.Dir? && Leads(g, g[a][j].target.id, names[1..], e)
  }

  /** `paths` are the entries `origins`, each at a path that leads to it from `d` at `dir`. */
  ghost predicate Located(g: Graph, d: string, dir: Path, paths: seq<Path>, origins: seq<Slot>) {
    |paths| == |origins| && forall k | 0 <= k < |paths| :: dir < paths[k] && Leads(g, d, paths[k][|dir|..], origins[k])
  }

  /** `origins` are the entries of the expanded directories, each once; of `d` only the first `n`. */
  ghost predicate Inventory(g: Graph, d: string, n: nat, expanded: set<string>, origins: seq<Slot>) {
    && Distinct(origins)
    && forall x, j :: Slot(x, j) in origins <==> x in g && x in expanded && 0 <= j < |g[x]| && (x == d ==> j < n)
  }

  /*** The scan ***/

  /** What a walk has achieved beyond the identities seen before it. */
  ghost predicate Explored(g: Graph, d: string, before: set<string>, after: set<string>, expanded: seq<string>) {
    && before <= after <= g.Keys
    && Distinct(expanded) && Elements(expanded) == {d} + (after - before)
    && (forall x, y | x in after - before && Edge(g, x, y) :: y in after)
    && (forall x | x in after - before :: Reachable(g, d, x))
  }

  lemma ExploredMore(g: Graph, d: string, before: set<string>, mid: set<string>, after: set<string>,
                     c: string, expanded: seq<string>, more: seq<string>)
    requires Explored(g, d, before, mid, expanded) && d in before && Edge(g, d, c) && c !in mid
    requires Explored(g, c, mid + {c}, after, more)
    requires forall y | Edge(g, c, y) :: y in after
    ensures Explored(g, d, before, after, expanded + more)
  {
    DistinctConcat(expanded, more);
    ReachableSelf(g, c);
    forall x | x in after - before
      ensures Reachable(g, d, x)
    {
      if x !in mid {
        assert x == c || x in after - (mid + {c});
        ReachableVia(g, d, c, x);
      }
    }
  }

  /** The state of the walk through `d`, which is at `dir`, before its entry number `i`. */
  ghost predicate Walking(g: Graph, d: string, dir: Path, before: set<string>, i: nat,
                          paths: seq<Path>, expanded: seq<string>, seen: set<string>, origins: seq<Slot>)
  {
    && d in g && d in before && i <= |g[d]|
    && Explored(g, d, before, seen, expanded)
    && (forall j | 0 <= j < i && g[d][j].target.Dir? :: g[d][j].target.id in seen)
    && Located(g, d, dir, paths, origins) && Inventory(g, d, i, Elements(expanded), origins)
    && (forall p | p in paths :: dir < p && exists j | 0 <= j < i :: p[|dir|] == g[d][j].name)
    && (ProperNames(g) ==> Distinct(paths))
  }

  lemma StartWalking(g: Graph, d: string, dir: Path, before: set<string>)
    requires d in g && d in before && before <= g.Keys
    ensures Walking(g, d, dir, before, 0, [], [d], before, [])
  {
    assert Elements([d]) == {d};
  }

  lemma AllEdgesSeen(g: Graph, d: string, dir: Path, before: set<string>,
                     paths: seq<Path>, expanded: seq<string>, seen: set<string>, origins: seq<Slot>)
    requires d in g && Walking(g, d, dir, before, |g[d]|, paths, expanded, seen, origins)
    ensures forall y | Edge(g, d, y) :: y in seen
  {}

  /** Past an entry that is not descended into. */
  lemma PastEntry(g: Graph, d: string, dir: Path, before: set<string>, i: nat,
                  paths: seq<Path>, expanded: seq<string>, seen: set<string>, origins: seq<Slot>)
    requires Walking(g, d, dir, before, i, paths, expanded, seen, origins) && i < |g[d]|
    requires g[d][i].target.Dir? ==> g[d][i].target.id in seen
    ensures Walking(g, d, dir, before, i + 1, paths + [dir + [g[d][i].name]], expanded, seen, origins + [Slot(d, i)])
  {
    var path := dir + [g[d][i].name];
    OneEntryMore(g, d, i, dir, paths, expanded, origins);
    DistinctBelow(g, d, i, dir, paths, path, []);
    assert paths + [path] + [] == paths + [path];
  }

  /** Past an entry that is a new directory. */
  lemma PastDirectory(g: Graph, d: string, dir: Path, before: set<string>, i: nat,
                      paths: seq<Path>, expanded: seq<string>, seen: set<string>, origins: seq<Slot>,
                      below: seq<Path>, more: seq<string>, after: set<string>, inside: seq<Slot>)
    requires Walking(g, d, dir, before, i, paths, expanded, seen, origins) && i < |g[d]|
    requires g[d][i].target.Dir? && g[d][i].target.id in g && g[d][i].target.id !in seen
    requires var c, path := g[d][i].target.id, dir + [g[d][i].name];
             Walking(g, c, path, seen + {c}, |g[c]|, below, more, after, inside)
    ensures var path := dir + [g[d][i].name];
            Walking(g, d, dir, before, i + 1, paths + [path] + below, expanded + more, after,
                    origins + [Slot(d, i)] + inside)
  {
    var c, path := g[d][i].target.id, dir + [g[d][i].name];
    assert Explored(g, d, before, after, expanded + more) by {
      AllEdgesSeen(g, c, path, seen + {c}, below, more, after, inside);
      assert Edge(g, d, c);
      ExploredMore(g, d, before, seen, after, c, expanded, more);
    }
    assert Located(g, d, dir, paths + [path] + below, origins + [Slot(d, i)] + inside) by {
      OneEntryMore(g, d, i, dir, paths, expanded, origins);
      LocatedBelow(g, d, i, dir, paths + [path], origins + [Slot(d, i)], below, inside);
    }
    assert Inventory(g, d, i + 1, Elements(expanded + more), origins + [Slot(d, i)] + inside) by {
      OneEntryMore(g, d, i, dir, paths, expanded, origins);
      InventoryBelow(g, d, i, c, Elements(expanded), origins + [Slot(d, i)], Elements(more), inside);
      assert Elements(expanded + more) == Elements(expanded) + Elements(more);
    }
    DistinctBelow(g, d, i, dir, paths, path, below);
  }

  /** Walks the directory `d`, which is at `dir` and marked as seen.  `expanded` are the
      directories whose listing was read, `paths` the entries reported. */
  method WalkDir(g: Graph, d: string, dir: Path, before: set<string>)
    returns (paths: seq<Path>, expanded: seq<string>, seen: set<string>, ghost origins: seq<Slot>)
    requires Closed(g) && d in g && d in before && before <= g.Keys
    ensures Walking(g, d, dir, before, |g[d]|, paths, expanded, seen, origins)
    ensures Explored(g, d, before, seen, expanded) && (ProperNames(g) ==> Distinct(paths))
    decreases |g.Keys - before|
  {
    paths, expanded, seen, origins := [], [d], before, [];
    StartWalking(g, d, dir, before);
    for i := 0 to |g[d]|
      invariant before <= seen <= g.Keys
      invariant Walking(g, d, dir, before, i, paths, expanded, seen, origins)
    {
      var entry := g[d][i];
      var path := dir + [entry.name];
      if entry.target.Dir? && entry.target.id !in seen {
        var c := entry.target.id;
        Fewer(g.Keys, before, seen, c);
        var below, more, after, inside := WalkDir(g, c, path, seen + {c});
        PastDirectory(g, d, dir, before, i, paths, expanded, seen, origins, below, more, after, inside);
        paths := paths + [path] + below;
        expanded, seen, origins := expanded + more, after, origins + [Slot(d, i)] + inside;
      } else {
        PastEntry(g, d, dir, before, i, paths, expanded, seen, origins);
        paths, origins := paths + [path], origins + [Slot(d, i)];
      }
    }
  }

  lemma OneEntryMore(g: Graph, d: string, i: nat, dir: Path, paths: seq<Path>, expanded: seq<string>,
                     origins: seq<Slot>)
    requires d in g && i < |g[d]| && d in expanded
    requires Located(g, d, dir, paths, origins) && Inventory(g, d, i, Elements(expanded), origins)
    ensures Located(g, d, dir, paths + [dir + [g[d][i].name]], origins + [Slot(d, i)])
    ensures Inventory(g, d, i + 1, Elements(expanded), origins + [Slot(d, i)])
  {
    var path := dir + [g[d][i].name];
    assert path[|dir|..] == [g[d][i].name];
    assert Slot(d, i) !in origins;
  }

  /** Entries found below the entry number `i` are found below the directory. */
  lemma LocatedBelow(g: Graph, d: string, i: nat, dir: Path, paths: seq<Path>, origins: seq<Slot>,
                     below: seq<Path>, inside: seq<Slot>)
    requires d in g && i < |g[d]| && g[d][i].target.Dir?
    requires Located(g, d, dir, paths, origins)
    requires Located(g, g[d][i].target.id, dir + [g[d][i].name], below, inside)
    ensures Located(g, d, dir, paths + below, origins + inside)
  {
    var path := dir + [g[d][i].name];
    forall k | 0 <= k < |below|
      ensures dir < below[k] && Leads(g, d, below[k][|dir|..], inside[k])
    {
      var names := below[k][|dir|..];
      assert below[k][..|path|] == path;
      assert names[0] == path[|dir|] == g[d][i].name;
      assert names[1..] == below[k][|path|..];
    }
  }

  lemma InventoryBelow(g: Graph, d: string, i: nat, c: string, expanded: set<string>, origins: seq<Slot>,
                       more: set<string>, inside: seq<Slot>)
    requires d in expanded && expanded !! more && c in g && c in more
    requires Inventory(g, d, i + 1, expanded, origins) && Inventory(g, c, |g[c]|, more, inside)
    ensures Inventory(g, d, i + 1, expanded + more, origins + inside)
  {
    forall a, b | 0 <= a < |origins| && 0 <= b < |inside|
      ensures origins[a] != inside[b]
    {
      assert origins[a] in origins && inside[b] in inside;
    }
  }

  lemma Fewer(all: set<string>, before: set<string>, seen: set<string>, c: string)
    requires before <= seen && c in all && c !in seen
    ensures |all - (seen + {c})| < |all - before|
  {
    var smaller, larger := all - (seen + {c}), all - before;
    assert smaller + {c} <= larger && c !in smaller;
    assert larger == (smaller + {c}) + (larger - (smaller + {c}));
  }

  /** The paths reported for one more entry differ from those of the entries before. */
  lemma DistinctBelow(g: Graph, d: string, i: nat, dir: Path, known: seq<Path>, path: Path, below: seq<Path>)
    requires d in g && i < |g[d]| && path == dir + [g[d][i].name]
    requires forall p | p in known :: dir < p && exists j | 0 <= j < i :: p[|dir|] == g[d][j].name
    requires forall p | p in below :: path < p
    ensures forall p | p in known + [path] + below :: dir < p && exists j | 0 <= j < i + 1 :: p[|dir|] == g[d][j].name
    ensures ProperNames(g) && Distinct(known) && Distinct(below) ==> Distinct(known + [path] + below)
  {
    assert path[|dir|] == g[d][i].name;
    forall p | p in below
      ensures dir < p && p[|dir|] == g[d][i].name
    {
      assert p[|dir|] == path[|dir|];
    }
    forall p | p in known + [path] + below
      ensures dir < p && exists j | 0 <= j < i + 1 :: p[|dir|] == g[d][j].name
    {
      if p in known {
        var j :| 0 <= j < i && p[|dir|] == g[d][j].name;
      }
    }
    if ProperNames(g) && Distinct(known) && Distinct(below) {
      var all := known + [path] + below;
      forall a, b | 0 <= a < b < |all|
        ensures all[a] != all[b]
      {
        if a < |known| {
          assert known[a] in known;
          if b > |known| {
            assert below[b - |known| - 1] in below;
          }
        } else if b > |known| {
          assert below[b - |known| - 1] in below;
        }
      }
    }
  }

  /** A scan from a root directory ends on every graph, reads the listing of every reachable
      directory exactly once, and reports each entry of each listing exactly once, at a path
      that leads to it; no path is reported twice. */
  method Scan(g: Graph, root: string, dir: Path)
    returns (paths: seq<Path>, expanded: seq<string>, ghost origins: seq<Slot>)
    requires Closed(g) && root in g
    ensures Distinct(expanded) && forall d :: d in expanded <==> Reachable(g, root, d)
    ensures Located(g, root, dir, paths, origins) && Distinct(origins)
    ensures forall x, j :: Slot(x, j) in origins <==> x in g && Reachable(g, root, x) && 0 <= j < |g[x]|
    ensures ProperNames(g) ==> Distinct(paths)
  {
    var seen;
    paths, expanded, seen, origins := WalkDir(g, root, dir, {root});
    AllEdgesSeen(g, root, dir, {root}, paths, expanded, seen, origins);
    forall d
      ensures d in expanded <==> Reachable(g, root, d)
    {
      assert d in expanded <==> d in Elements(expanded);
      if Reachable(g, root, d) {
        var t :| Trail(g, t) && t[0] == root && t[|t| - 1] == d;
        ClosedSetHoldsTrail(g, seen, t);
      }
      ReachableSelf(g, root);
    }
  }
}
