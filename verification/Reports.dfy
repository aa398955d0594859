/** The counters of a reconciliation report. */
module Reports {
  import opened Paths
  import opened Sorting
  import opened Entries
  import opened Diff
  import opened BoltDiff
  import opened Kinds

  /** The counters of a report; modifications and attribute changes share one. */
  datatype Column =
    | Creations | Modifications | Deletions | Moves | Replacements | Misses | Orphans | Invalids | Corruptions

  function ColumnOf(e: Event): Column {
    match e
    case Created(_, _) => Creations
    case Modified(_, _, _) => Modifications
    case AttributeChanged(_, _, _) => Modifications
    case Deleted(_, _) => Deletions
    case Moved(_, _, _, _) => Moves
    case Replaced(_, _, _) => Replacements
    case Missing(_) => Misses
    case Orphan(_, _) => Orphans
    case Invalid(_, _) => Invalids
    case Corrupt(_, _) => Corruptions
  }

  /** The counters are kept as a multiset: the count of a column is its multiplicity. */
  datatype Report = Report(counters: multiset<Column>, events: seq<Event>, truncated: nat)

  const EMPTY := Report(multiset{}, [], 0)

  function CountEvent(r: Report, e: Event): Report {
    Report(r.counters + multiset{ColumnOf(e)}, r.events, r.truncated)
  }

  function AddReportEvent(r: Report, e: Event, limit: nat): Report {
    var room := |r.events| < limit;
    Report(r.counters, if room then r.events + [e] else r.events, if room then r.truncated else r.truncated + 1)
  }

  /*** Specification: how many events there are of which kind ***/

  /** The number of events among the first `n` that fall into one of the columns. */
  ghost function CountTo(es: seq<Event>, n: nat, ks: set<Column>): nat
    requires n <= |es|
  {
    if n == 0 then 0 else CountTo(es, n - 1, ks) + if ColumnOf(es[n - 1]) in ks then 1 else 0
  }

  ghost function Count(es: seq<Event>, ks: set<Column>): nat {
    CountTo(es, |es|, ks)
  }

  /** The report is right about the events so far: each is counted once, under its kind; the
      first `limit` are kept, in order, and the others counted as truncated. */
  ghost predicate Reflects(r: Report, es: seq<Event>, limit: nat) {
    && (forall k :: r.counters[k] == Count(es, {k}))
    && |r.counters| == |r.events| + r.truncated == |es|
    && r.events == es[..if |es| < limit then |es| else limit]
  }

  /** One more event: whatever events the report was right about, it is right about them and
      the new one. */
  method StageReportEvent(r: Report, e: Event, limit: nat) returns (r': Report)
    ensures forall es | Reflects(r, es, limit) :: Reflects(r', es + [e], limit)
  {
    r' := AddReportEvent(CountEvent(r, e), e, limit);
    forall es | Reflects(r, es, limit)
      ensures Reflects(r', es + [e], limit)
    {
      StagedReflects(r, es, e, limit);
    }
  }

  lemma StagedReflects(r: Report, es: seq<Event>, e: Event, limit: nat)
    requires Reflects(r, es, limit)
    ensures Reflects(AddReportEvent(CountEvent(r, e), e, limit), es + [e], limit)
  {
    var r' := AddReportEvent(CountEvent(r, e), e, limit);
    forall k
      ensures r'.counters[k] == Count(es + [e], {k})
    {
      CountConcat(es, [e], {k});
      assert CountTo([e], 0, {k}) == 0;
    }
    if |es| < limit {
      assert es[..|es|] == es && (es + [e])[..|es| + 1] == es + [e];
    } else {
      assert (es + [e])[..limit] == es[..limit];
    }
  }

  /** Walks through the events; the report is right about all of them. */
  method Summarize(es: seq<Event>, limit: nat) returns (r: Report)
    ensures Reflects(r, es, limit)
  {
    r := EMPTY;
    for i := 0 to |es|
      invariant Reflects(r, es[..i], limit)
    {
      r := StageReportEvent(r, es[i], limit);
      assert es[..i + 1] == es[..i] + [es[i]];
    }
    assert es[..|es|] == es;
  }

  /** The number of events among the first `n` that the predicate holds of. */
  ghost function NumberTo(es: seq<Event>, n: nat, f: Event -> bool): nat
    requires n <= |es|
  {
    if n == 0 then 0 else NumberTo(es, n - 1, f) + if f(es[n - 1]) then 1 else 0
  }

  lemma {:induction false} ColumnIsKind(es: seq<Event>, n: nat, k: Column, f: Event -> bool)
    requires n <= |es| && forall e :: ColumnOf(e) == k <==> f(e)
    ensures CountTo(es, n, {k}) == NumberTo(es, n, f)
  {
    if n > 0 {
      ColumnIsKind(es, n - 1, k, f);
    }
  }

  /** The events that a counter is for; changes of content and of attributes share one. */
  predicate BelongsTo(k: Column, e: Event) {
    match k
    case Creations => e.Created?
    case Modifications => e.Modified? || e.AttributeChanged?
    case Deletions => e.Deleted?
    case Moves => e.Moved?
    case Replacements => e.Replaced?
    case Misses => e.Missing?
    case Orphans => e.Orphan?
    case Invalids => e.Invalid?
    case Corruptions => e.Corrupt?
  }

  /** Each counter is the number of events it is for. */
  lemma CountersAreKinds(es: seq<Event>, r: Report, limit: nat, k: Column)
    requires Reflects(r, es, limit)
    ensures r.counters[k] == NumberTo(es, |es|, e => BelongsTo(k, e))
  {
    ColumnIsKind(es, |es|, k, e => BelongsTo(k, e));
  }

  lemma {:induction false} CountConcatTo(a: seq<Event>, b: seq<Event>, n: nat, ks: set<Column>)
    requires n <= |b|
    ensures CountTo(a + b, |a| + n, ks) == Count(a, ks) + CountTo(b, n, ks)
  {
    if n > 0 {
      CountConcatTo(a, b, n - 1, ks);
    } else {
      CountOfPrefix(a, b, |a|, ks);
    }
  }

  lemma {:induction false} CountOfPrefix(a: seq<Event>, b: seq<Event>, n: nat, ks: set<Column>)
    requires n <= |a|
    ensures CountTo(a + b, n, ks) == CountTo(a, n, ks)
  {
    if n > 0 {
      CountOfPrefix(a, b, n - 1, ks);
    }
  }

  lemma CountConcat(a: seq<Event>, b: seq<Event>, ks: set<Column>)
    ensures Count(a + b, ks) == Count(a, ks) + Count(b, ks)
  {
    CountConcatTo(a, b, |b|, ks);
  }

  lemma {:induction false} CountUnion(es: seq<Event>, n: nat, a: set<Column>, b: set<Column>)
    requires n <= |es| && a !! b
    ensures CountTo(es, n, a + b) == CountTo(es, n, a) + CountTo(es, n, b)
  {
    if n > 0 {
      CountUnion(es, n - 1, a, b);
    }
  }

  lemma {:induction false} CountNone(es: seq<Event>, n: nat, ks: set<Column>)
    requires n <= |es| && forall i | 0 <= i < n :: ColumnOf(es[i]) !in ks
    ensures CountTo(es, n, ks) == 0
  {
    if n > 0 {
      CountNone(es, n - 1, ks);
    }
  }

  ghost function PathsTo(es: seq<Event>, n: nat, ks: set<Column>): set<Path>
    requires n <= |es|
  {
    set i | 0 <= i < n && ColumnOf(es[i]) in ks :: es[i].path
  }

  /** If no two events are about the same path, counting events is counting paths. */
  lemma {:induction false} CountIsSize(es: seq<Event>, n: nat, ks: set<Column>)
    requires n <= |es| && OncePerPath(es)
    ensures CountTo(es, n, ks) == |PathsTo(es, n, ks)|
  {
    if n > 0 {
      CountIsSize(es, n - 1, ks);
      var rest := PathsTo(es, n - 1, ks);
      if ColumnOf(es[n - 1]) in ks {
        assert es[n - 1].path !in rest;
        assert PathsTo(es, n, ks) == rest + {es[n - 1].path};
      } else {
        assert PathsTo(es, n, ks) == rest;
      }
    }
  }

  /*** Without expected state ***/

  const RENEWED: set<Column> := {Creations, Modifications, Replacements}

  /** The entries that none of these events calls new or changed. */
  ghost function Quiet(es: seq<Event>, actual: Tree): set<Path> {
    actual.Keys - PathsTo(es, |es|, RENEWED)
  }

  /** The entries left by the subtraction are those that nothing new is reported of. */
  lemma HealthyWithoutExpected(es: seq<Event>, actual: Tree)
    requires OncePerPath(es) && forall e | e in es && ColumnOf(e) in RENEWED :: e.path in actual
    ensures HealthyCounted(es, actual, Quiet(es, actual))
  {
    var n := |es|;
    CountUnion(es, n, {Creations}, {Modifications});
    CountUnion(es, n, {Creations} + {Modifications}, {Replacements});
    assert {Creations} + {Modifications} + {Replacements} == RENEWED;
    CountIsSize(es, n, RENEWED);
    var paths := PathsTo(es, n, RENEWED);
    forall p | p in paths
      ensures p in actual
    {
      var i :| 0 <= i < n && ColumnOf(es[i]) in RENEWED && es[i].path == p;
      assert es[i] in es;
    }
    assert paths <= actual.Keys;
    assert |actual.Keys - paths| == |actual.Keys| - |paths|;
  }

  /** The entries that are unchanged, or only moved. */
  ghost function Healthy(previous: Tree, actual: Tree, moved: Path -> bool): set<Path> {
    set p | p in actual && (if p in previous then SharedEvent(p, previous[p], actual[p]).None? else moved(p))
  }

  /** Subtracting creations, modifications and replacements from the number of entries does not
      underflow and gives the number of healthy ones. */
  ghost predicate HealthyCounted(es: seq<Event>, actual: Tree, healthy: set<Path>) {
    var renewed := Count(es, {Creations}) + Count(es, {Modifications}) + Count(es, {Replacements});
    renewed <= |actual| && |actual| - renewed == |healthy|
  }

  /** On the generic path: healthy are the entries that are unchanged or only moved. */
  lemma HealthyIsExact(previous: Tree, actual: Tree)
    ensures HealthyCounted(Structure(previous, actual), actual,
                           Healthy(previous, actual, q => MovedTo(previous, actual, q)))
  {
    var es := Structure(previous, actual);
    StructureOncePerPath(previous, actual);
    forall e: Event
      ensures e in es <==> Describes(previous, actual, e)
    {
      StructureIsExact(previous, actual, e);
    }
    DescribedHealthy(previous, actual, es);
  }

  lemma DescribedHealthy(previous: Tree, actual: Tree, es: seq<Event>)
    requires OncePerPath(es) && forall e :: e in es <==> Describes(previous, actual, e)
    ensures HealthyCounted(es, actual, Healthy(previous, actual, q => MovedTo(previous, actual, q)))
  {
    var moved := q => MovedTo(previous, actual, q);
    assert forall e | ColumnOf(e) in RENEWED :: Describes(previous, actual, e) <==> Renews(previous, actual, moved, e);
    HealthyOf(previous, actual, es, moved);
  }

  /** The same on the persistent path, by its own notion of a move and whatever the identities. */
  lemma BoltHealthyIsExact(previous: Tree, actual: Tree)
    ensures HealthyCounted(BoltEvents(previous, actual), actual,
                           Healthy(previous, actual, q => BoltMovedTo(previous, actual, q)))
  {
    SortedPathsDistinct(actual.Keys);
    SortedPathsDistinct(previous.Keys);
    BoltOncePerPath(previous, actual, SortedPaths(actual.Keys), SortedPaths(previous.Keys));
    forall e: Event
      ensures e in BoltEvents(previous, actual) <==> BoltDescribes(previous, actual, e)
    {
      BoltIsExact(previous, actual, e);
    }
    BoltDescribedHealthy(previous, actual, BoltEvents(previous, actual));
  }

  lemma BoltDescribedHealthy(previous: Tree, actual: Tree, es: seq<Event>)
    requires OncePerPath(es) && forall e :: e in es <==> BoltDescribes(previous, actual, e)
    ensures HealthyCounted(es, actual, Healthy(previous, actual, q => BoltMovedTo(previous, actual, q)))
  {
    var moved := q => BoltMovedTo(previous, actual, q);
    assert forall e | ColumnOf(e) in RENEWED ::
        BoltDescribes(previous, actual, e) <==> Renews(previous, actual, moved, e);
    HealthyOf(previous, actual, es, moved);
  }

  ghost predicate BoltMovedTo(previous: Tree, actual: Tree, q: Path) {
    exists o :: BoltMove(previous, actual, o, q)
  }

  /** What an event that calls an entry new or changed says, given which paths count as moved to. */
  ghost predicate Renews(previous: Tree, actual: Tree, moved: Path -> bool, e: Event) {
    if e.Created? then e.path in actual && e.path !in previous && !moved(e.path) && e.after == actual[e.path]
    else e.path in previous && e.path in actual && SharedEvent(e.path, previous[e.path], actual[e.path]) == Some(e)
  }

  lemma HealthyOf(previous: Tree, actual: Tree, es: seq<Event>, moved: Path -> bool)
    requires OncePerPath(es)
    requires forall e | ColumnOf(e) in RENEWED :: e in es <==> Renews(previous, actual, moved, e)
    ensures HealthyCounted(es, actual, Healthy(previous, actual, moved))
  {
    HealthyWithoutExpected(es, actual);
    QuietPaths(previous, actual, es, moved);
  }

  lemma QuietPaths(previous: Tree, actual: Tree, es: seq<Event>, moved: Path -> bool)
    requires forall e | ColumnOf(e) in RENEWED :: e in es <==> Renews(previous, actual, moved, e)
    ensures Quiet(es, actual) == Healthy(previous, actual, moved)
  {
    forall p | p in actual
      ensures p in PathsTo(es, |es|, RENEWED) <==>
                if p in previous then SharedEvent(p, previous[p], actual[p]).Some? else !moved(p)
    {
      if p in PathsTo(es, |es|, RENEWED) {
        var i :| 0 <= i < |es| && ColumnOf(es[i]) in RENEWED && es[i].path == p;
        assert Renews(previous, actual, moved, es[i]);
      }
      if p in previous && SharedEvent(p, previous[p], actual[p]).Some? {
        InPathsTo(es, SharedEvent(p, previous[p], actual[p]).value);
      }
      if p !in previous && !moved(p) {
        InPathsTo(es, Created(p, actual[p]));
      }
    }
  }

  lemma InPathsTo(es: seq<Event>, e: Event)
    requires e in es && ColumnOf(e) in RENEWED
    ensures e.path in PathsTo(es, |es|, RENEWED)
  {
    var i :| 0 <= i < |es| && es[i] == e;
  }

  /*** With expected state ***/

  ghost function Good(manifest: Manifest, actual: Tree): set<Path> {
    set p | p in manifest && p in actual && !Violates(actual[p], manifest[p])
  }

  ghost function Gone(manifest: Manifest, actual: Tree): set<Path> {
    set p | p in manifest && p !in actual
  }

  ghost function Bad(manifest: Manifest, actual: Tree): set<Path> {
    set p | p in manifest && p in actual && Violates(actual[p], manifest[p])
  }

  /** Counts the expected entries that are present and violate neither a given type nor a given
      size. */
  method CountHealthy(manifest: Manifest, actual: Tree) returns (healthy: nat)
    ensures healthy == |Good(manifest, actual)|
  {
    healthy := 0;
    var todo := manifest.Keys;
    ghost var good := Good(manifest, actual);
    assert good * todo == good;
    while todo != {}
      invariant todo <= manifest.Keys
      invariant healthy + |good * todo| == |good|
      decreases |todo|
    {
      var p :| p in todo;
      if p in actual && Satisfies(actual[p], manifest[p]) {
        healthy := healthy + 1;
        assert good * todo == good * (todo - {p}) + {p};
      } else {
        assert good * todo == good * (todo - {p});
      }
      todo := todo - {p};
    }
  }

  lemma JudgedPaths(manifest: Manifest, actual: Tree, xs: seq<Path>)
    requires Distinct(xs) && forall p :: p in xs <==> p in manifest.Keys
    ensures var es := Picks(xs, ExpectedOf(manifest, actual));
            && Count(es, {Misses}) == |Gone(manifest, actual)|
            && Count(es, {Invalids}) == |Bad(manifest, actual)|
  {
    var f := ExpectedOf(manifest, actual);
    var es := Picks(xs, f);
    PicksOncePerPath(xs, |xs|, f);
    CountIsSize(es, |es|, {Misses});
    CountIsSize(es, |es|, {Invalids});
    forall p
      ensures p in PathsTo(es, |es|, {Misses}) <==> p in manifest && p !in actual
      ensures p in PathsTo(es, |es|, {Invalids}) <==> p in manifest && p in actual && Violates(actual[p], manifest[p])
    {
      PathInPicks(manifest, actual, xs, p);
    }
    assert PathsTo(es, |es|, {Misses}) == Gone(manifest, actual);
    assert PathsTo(es, |es|, {Invalids}) == Bad(manifest, actual);
  }

  lemma PathInPicks(manifest: Manifest, actual: Tree, xs: seq<Path>, p: Path)
    requires forall p :: p in xs <==> p in manifest.Keys
    ensures var es := Picks(xs, ExpectedOf(manifest, actual));
            && (p in PathsTo(es, |es|, {Misses}) <==> p in manifest && p !in actual)
            && (p in PathsTo(es, |es|, {Invalids}) <==>
                  p in manifest && p in actual && Violates(actual[p], manifest[p]))
  {
    var f := ExpectedOf(manifest, actual);
    var es := Picks(xs, f);
    forall i | 0 <= i < |es|
      ensures es[i].path in manifest && f(es[i].path) == Some(es[i])
    {
      assert es[i] in es;
      InPicks(xs, f, es[i]);
    }
    if p in manifest && f(p).Some? {
      InPicks(xs, f, f(p).value);
      var i :| 0 <= i < |es| && es[i] == f(p).value;
    }
  }

  /** Every expected entry is healthy, missing or invalid: the three counters add up to their
      number, once the policy events, which also count as invalid, are taken off. */
  lemma ExpectedAddsUp(previous: Tree, actual: Tree, manifest: Manifest, eligible: Meta -> bool, policy: seq<Event>)
    requires forall e | e in policy :: e.Invalid?
    ensures var es := Structure(previous, actual) + Judgement(actual, Some(manifest), eligible) + policy;
            |Good(manifest, actual)| + Count(es, {Misses}) + Count(es, {Invalids}) - |policy| == |manifest|
  {
    StructureJudgesNothing(previous, actual);
    JudgementAddsUp(Structure(previous, actual), actual, manifest, eligible, policy);
  }

  /** The same on the persistent path, which stages the policy events first. */
  lemma BoltExpectedAddsUp(previous: Tree, actual: Tree, manifest: Manifest, eligible: Meta -> bool, policy: seq<Event>)
    requires forall e | e in policy :: e.Invalid?
    ensures var es := policy + (BoltEvents(previous, actual) + Judgement(actual, Some(manifest), eligible));
            |Good(manifest, actual)| + Count(es, {Misses}) + Count(es, {Invalids}) - |policy| == |manifest|
  {
    BoltJudgesNothing(previous, actual);
    JudgementAddsUp(BoltEvents(previous, actual), actual, manifest, eligible, policy);
    var others := BoltEvents(previous, actual) + Judgement(actual, Some(manifest), eligible);
    CountConcat(policy, others, {Misses});
    CountConcat(others, policy, {Misses});
    CountConcat(policy, others, {Invalids});
    CountConcat(others, policy, {Invalids});
  }

  lemma StructureJudgesNothing(previous: Tree, actual: Tree)
    ensures forall e | e in Structure(previous, actual) :: !e.Missing? && !e.Invalid?
  {
    PicksJudgeNothing(SortedPaths(actual.Keys), SharedOf(previous, actual));
    PicksJudgeNothing(SortedIds(MovedIds(previous, actual)), MovedOf(previous, actual));
    PicksJudgeNothing(SortedPaths(CreatedPaths(previous, actual)), CreatedOf(actual));
    PicksJudgeNothing(SortedPaths(DeletedPaths(previous, actual)), DeletedOf(previous));
  }

  lemma BoltJudgesNothing(previous: Tree, actual: Tree)
    ensures forall e | e in BoltEvents(previous, actual) :: !e.Missing? && !e.Invalid?
  {
    PicksJudgeNothing(SortedPaths(actual.Keys), BoltOf(previous, actual));
    PicksJudgeNothing(SortedPaths(previous.Keys), BoltGone(previous, actual));
  }

  lemma PicksJudgeNothing<T>(xs: seq<T>, f: T -> Option<Event>)
    requires forall x | f(x).Some? :: !f(x).value.Missing? && !f(x).value.Invalid?
    ensures forall e | e in Picks(xs, f) :: !e.Missing? && !e.Invalid?
  {
    forall e | e in Picks(xs, f)
      ensures !e.Missing? && !e.Invalid?
    {
      InPicks(xs, f, e);
    }
  }

  lemma JudgementAddsUp(structure: seq<Event>, actual: Tree, manifest: Manifest, eligible: Meta -> bool,
                        policy: seq<Event>)
    requires forall e | e in structure :: !e.Missing? && !e.Invalid?
    requires forall e | e in policy :: e.Invalid?
    ensures var es := structure + Judgement(actual, Some(manifest), eligible) + policy;
            |Good(manifest, actual)| + Count(es, {Misses}) + Count(es, {Invalids}) - |policy| == |manifest|
  {
    SortedPathsDistinct(manifest.Keys);
    JudgedPaths(manifest, actual, SortedPaths(manifest.Keys));
    OnlyOrphans(manifest, actual, eligible, SortedPaths(actual.Keys));
    AddsUp(structure, Picks(SortedPaths(manifest.Keys), ExpectedOf(manifest, actual)),
           Picks(SortedPaths(actual.Keys), OrphanOf(manifest, actual, eligible)), policy);
    ThreeWays(manifest, actual);
  }

  lemma OnlyOrphans(manifest: Manifest, actual: Tree, eligible: Meta -> bool, ys: seq<Path>)
    ensures forall e | e in Picks(ys, OrphanOf(manifest, actual, eligible)) :: e.Orphan?
  {
    forall e | e in Picks(ys, OrphanOf(manifest, actual, eligible))
      ensures e.Orphan?
    {
      InPicks(ys, OrphanOf(manifest, actual, eligible), e);
    }
  }

  lemma AddsUp(structure: seq<Event>, judged: seq<Event>, orphans: seq<Event>, policy: seq<Event>)
    requires forall e | e in structure :: !e.Missing? && !e.Invalid?
    requires forall e | e in orphans :: e.Orphan?
    requires forall e | e in policy :: e.Invalid?
    ensures var es := structure + (judged + orphans) + policy;
            && Count(es, {Misses}) == Count(judged, {Misses})
            && Count(es, {Invalids}) == Count(judged, {Invalids}) + |policy|
  {
    forall ks | ks == {Misses} || ks == {Invalids}
      ensures Count(structure + (judged + orphans) + policy, ks) == Count(judged, ks) + Count(policy, ks)
    {
      CountConcat(structure + (judged + orphans), policy, ks);
      CountConcat(structure, judged + orphans, ks);
      CountConcat(judged, orphans, ks);
      assert forall i | 0 <= i < |structure| :: structure[i] in structure;
      CountNone(structure, |structure|, ks);
      assert forall i | 0 <= i < |orphans| :: orphans[i] in orphans;
      CountNone(orphans, |orphans|, ks);
    }
    assert forall i | 0 <= i < |policy| :: policy[i] in policy;
    CountNone(policy, |policy|, {Misses});
    CountAll(policy, |policy|, {Invalids});
  }

  lemma {:induction false} CountAll(es: seq<Event>, n: nat, ks: set<Column>)
    requires n <= |es| && forall i | 0 <= i < n :: ColumnOf(es[i]) in ks
    ensures CountTo(es, n, ks) == n
  {
    if n > 0 {
      CountAll(es, n - 1, ks);
    }
  }

  lemma ThreeWays(manifest: Manifest, actual: Tree)
    ensures |Good(manifest, actual)|
            + |Gone(manifest, actual)|
            + |Bad(manifest, actual)| == |manifest|
  {
    var good, gone, bad := Good(manifest, actual), Gone(manifest, actual), Bad(manifest, actual);
    assert manifest.Keys == good + gone + bad;
    assert |good + gone| == |good| + |gone|;
    assert |good + gone + bad| == |good + gone| + |bad|;
  }
}
