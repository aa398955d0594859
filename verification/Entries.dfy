/** File metadata, semantic events, and what a consumer makes of them. */
module Entries {
  import opened Paths

  datatype Option<+T> = None | Some(value: T)

  datatype FileType = Unknown | Regular | Directory | Symlink | Other

  /** What the program records about one path.  The empty identity means that
      the platform offered none. */
  datatype Meta = Meta(id: string, fileType: FileType, size: int, mtime: int, mode: int)

  /** A snapshot, or the result of a scan: metadata by path. */
  type Tree = map<Path, Meta>

  datatype Event =
    | Created(path: Path, after: Meta)
    | Modified(path: Path, before: Meta, after: Meta)
    | AttributeChanged(path: Path, before: Meta, after: Meta)
    | Replaced(path: Path, before: Meta, after: Meta)
    | Deleted(path: Path, before: Meta)
    | Moved(path: Path, oldPath: Path, before: Meta, after: Meta)
    | Missing(path: Path)
    | Orphan(path: Path, after: Meta)
    | Invalid(path: Path, after: Meta)
    | Corrupt(path: Path, after: Meta)
  {
    /** The paths whose entry a consumer changes because of this event.  Expected-state
        and integrity events change none. */
    function Touches(): set<Path> {
      match this
      case Moved(p, q, _, _) => {p, q}
      case Missing(_) => {}
      case Orphan(_, _) => {}
      case Invalid(_, _) => {}
      case Corrupt(_, _) => {}
      case _ => {path}
    }

    predicate Structural() {
      Touches() != {}
    }
  }

  /** Metadata without the identity, which events do not always reveal. */
  datatype Visible = Visible(fileType: FileType, size: int, mtime: int, mode: int)

  type View = map<Path, Visible>

  function Vis(m: Meta): Visible {
    Visible(m.fileType, m.size, m.mtime, m.mode)
  }

  function ViewOf(t: Tree): View {
    map p | p in t :: Vis(t[p])
  }

  function At<V>(m: map<Path, V>, p: Path): Option<V> {
    if p in m then Some(m[p]) else None
  }

  /** A consumer's reaction to one event. */
  function Step(v: View, e: Event): View {
    match e
    case Created(p, after) => v[p := Vis(after)]
    case Modified(p, _, after) => v[p := Vis(after)]
    case AttributeChanged(p, _, after) => v[p := Vis(after)]
    case Replaced(p, _, after) => v[p := Vis(after)]
    case Deleted(p, _) => v - {p}
    case Moved(p, q, _, after) => (v - {q})[p := Vis(after)]
    case _ => v
  }

  function Replay(v: View, es: seq<Event>): View
    decreases |es|
  {
    if es == [] then v else Replay(Step(v, es[0]), es[1..])
  }

  /** The number of events that name the path. */
  function Named(es: seq<Event>, p: Path): nat {
    if es == [] then 0 else (if p in es[0].Touches() then 1 else 0) + Named(es[1..], p)
  }

  lemma {:induction false} ReplayConcat(v: View, a: seq<Event>, b: seq<Event>)
    ensures Replay(v, a + b) == Replay(Replay(v, a), b)
    decreases |a|
  {
    if a == [] {
      assert a + b == b;
    } else {
      assert (a + b)[1..] == a[1..] + b;
      ReplayConcat(Step(v, a[0]), a[1..], b);
    }
  }

  lemma {:induction false} NamedConcat(a: seq<Event>, b: seq<Event>, p: Path)
    ensures Named(a + b, p) == Named(a, p) + Named(b, p)
  {
    if a == [] {
      assert a + b == b;
    } else {
      assert (a + b)[1..] == a[1..] + b;
      NamedConcat(a[1..], b, p);
    }
  }

  lemma {:induction false} UnnamedIsUntouched(es: seq<Event>, p: Path)
    ensures Named(es, p) == 0 <==> forall e | e in es :: p !in e.Touches()
  {
    if es != [] {
      UnnamedIsUntouched(es[1..], p);
      assert es == [es[0]] + es[1..];
    }
  }

  /** An event sequence describes the way to `target` when every event leaves the
      paths it touches as `target` has them. */
  ghost predicate LeadsTo(es: seq<Event>, target: View) {
    forall e, p | e in es && p in e.Touches() :: At(Step(map[], e), p) == At(target, p)
  }

  /** Replaying, at one path: an untouched path stays, a touched one is as `target` has it. */
  lemma {:induction false} ReplayAt(v: View, es: seq<Event>, target: View, p: Path)
    requires LeadsTo(es, target)
    ensures At(Replay(v, es), p) == if Named(es, p) == 0 then At(v, p) else At(target, p)
    decreases |es|
  {
    if es != [] {
      var e := es[0];
      assert es == [e] + es[1..];
      assert LeadsTo(es[1..], target);
      ReplayAt(Step(v, e), es[1..], target, p);
      if p in e.Touches() {
        assert At(Step(v, e), p) == At(Step(map[], e), p);
      } else {
        assert At(Step(v, e), p) == At(v, p);
      }
    }
  }
}
