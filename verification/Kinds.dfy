/** Which event is reported when, said on the fields of the entries alone. */
module Kinds {
  import opened Paths
  import opened Sorting
  import opened Entries
  import opened Diff
  import opened BoltDiff

  /*** Paths on both sides ***/

  /** Both identities are known, and they differ. */
  predicate OtherFile(before: Meta, after: Meta) {
    before.id != "" && after.id != "" && before.id != after.id
  }

  predicate OtherContent(before: Meta, after: Meta) {
    before.fileType != after.fileType || before.size != after.size || before.mtime != after.mtime
  }

  predicate AtBoth(previous: Tree, actual: Tree, p: Path, before: Meta, after: Meta) {
    p in previous && p in actual && before == previous[p] && after == actual[p]
  }

  /** The events about a shared path that are true, by its identity, content and mode. */
  predicate TrueOfShared(previous: Tree, actual: Tree, e: Event) {
    match e
    case Replaced(p, before, after) =>
      AtBoth(previous, actual, p, before, after) && OtherFile(before, after)
    case Modified(p, before, after) =>
      AtBoth(previous, actual, p, before, after) && !OtherFile(before, after) && OtherContent(before, after)
    case AttributeChanged(p, before, after) =>
      && AtBoth(previous, actual, p, before, after) && !OtherFile(before, after) && !OtherContent(before, after)
      && before.mode != after.mode
    case _ => false
  }

  predicate AboutShared(e: Event) {
    e.Replaced? || e.Modified? || e.AttributeChanged?
  }

  lemma SharedEventIsTrue(previous: Tree, actual: Tree, e: Event)
    requires AboutShared(e)
    ensures e.path in previous && e.path in actual
            && SharedEvent(e.path, previous[e.path], actual[e.path]) == Some(e) <==>
            TrueOfShared(previous, actual, e)
  {}

  /** A shared path is reported as replaced, modified or changed in its attributes exactly if that
      is what happened to it, and the same on both diffs. */
  lemma SharedKindsAreExact(previous: Tree, actual: Tree, e: Event)
    requires AboutShared(e)
    ensures e in Structure(previous, actual) <==> TrueOfShared(previous, actual, e)
    ensures e in BoltEvents(previous, actual) <==> TrueOfShared(previous, actual, e)
  {
    SharedEventIsTrue(previous, actual, e);
    StructureIsExact(previous, actual, e);
    BoltIsExact(previous, actual, e);
  }

  /** Nothing is reported of a shared path exactly if identity, content and mode agree. */
  lemma SilenceIsExact(previous: Tree, actual: Tree, p: Path)
    requires p in previous && p in actual
    ensures Named(Structure(previous, actual), p) == 0 <==>
              var before, after := previous[p], actual[p];
              !OtherFile(before, after) && !OtherContent(before, after) && before.mode == after.mode
  {
    Partition(previous, actual, p);
    NoSharedEvent(p, previous[p], actual[p]);
  }

  lemma NoSharedEvent(p: Path, before: Meta, after: Meta)
    ensures SharedEvent(p, before, after).None? <==>
              !OtherFile(before, after) && !OtherContent(before, after) && before.mode == after.mode
  {}

  /*** Expected entries ***/

  /** A constraint that is given is not met. */
  predicate Violates(m: Meta, e: Expected) {
    || (e.fileType.Some? && m.fileType != e.fileType.value)
    || (e.size.Some? && m.size != e.size.value)
  }

  /** The events about expected entries that are true. */
  predicate TrueOfExpected(actual: Tree, expected: Option<Manifest>, eligible: Meta -> bool, e: Event) {
    && expected.Some?
    && match e
       case Missing(p) => p in expected.value && p !in actual
       case Invalid(p, m) => p in expected.value && p in actual && m == actual[p] && Violates(m, expected.value[p])
       case Orphan(p, m) => p in actual && m == actual[p] && p !in expected.value && eligible(m)
       case _ => false
  }

  lemma ExpectedPart(actual: Tree, manifest: Manifest, xs: seq<Path>, e: Event)
    requires forall p :: p in xs <==> p in manifest.Keys
    ensures e in Picks(xs, ExpectedOf(manifest, actual)) <==>
              (e.Missing? || e.Invalid?) && TrueOfExpected(actual, Some(manifest), _ => true, e)
  {
    InPicks(xs, ExpectedOf(manifest, actual), e);
  }

  lemma OrphanPart(actual: Tree, manifest: Manifest, eligible: Meta -> bool, xs: seq<Path>, e: Event)
    requires forall p :: p in xs <==> p in actual.Keys
    ensures e in Picks(xs, OrphanOf(manifest, actual, eligible)) <==>
              e.Orphan? && TrueOfExpected(actual, Some(manifest), eligible, e)
  {
    InPicks(xs, OrphanOf(manifest, actual, eligible), e);
  }

  lemma JudgementIsExact(actual: Tree, expected: Option<Manifest>, eligible: Meta -> bool, e: Event)
    ensures e in Judgement(actual, expected, eligible) <==> TrueOfExpected(actual, expected, eligible, e)
  {
    if expected.Some? {
      ExpectedPart(actual, expected.value, SortedPaths(expected.value.Keys), e);
      OrphanPart(actual, expected.value, eligible, SortedPaths(actual.Keys), e);
    }
  }

  /*** All events of a diff ***/

  /** Everything a diff should report: what is true of the two trees and of the expected entries. */
  ghost predicate TrueEvent(previous: Tree, actual: Tree, expected: Option<Manifest>, eligible: Meta -> bool,
                            e: Event)
  {
    match e
    case Created(q, after) => q in actual && after == actual[q] && q !in previous && !MovedTo(previous, actual, q)
    case Deleted(o, before) => o in previous && before == previous[o] && o !in actual && !MovedFrom(previous, actual, o)
    case Moved(q, o, before, after) => MovePair(previous, actual, o, q) && before == previous[o] && after == actual[q]
    case _ => TrueOfShared(previous, actual, e) || TrueOfExpected(actual, expected, eligible, e)
  }

  /** The events of a walk are those that are true, and each occurs once. */
  ghost predicate ExactEvents(es: seq<Event>, previous: Tree, actual: Tree, expected: Option<Manifest>,
                              eligible: Meta -> bool)
  {
    forall e :: multiset(es)[e] == if TrueEvent(previous, actual, expected, eligible, e) then 1 else 0
  }

  lemma DiffIsExact(previous: Tree, actual: Tree, expected: Option<Manifest>, eligible: Meta -> bool)
    ensures ExactEvents(Structure(previous, actual) + Judgement(actual, expected, eligible),
                        previous, actual, expected, eligible)
  {
    StructureCounts(previous, actual);
    JudgementCounts(actual, expected, eligible);
    BothParts(Structure(previous, actual), Judgement(actual, expected, eligible), previous, actual, expected, eligible);
  }

  ghost predicate StructuralOnce(es: seq<Event>, previous: Tree, actual: Tree) {
    forall e :: multiset(es)[e] == if e.Structural() && TrueEvent(previous, actual, None, _ => true, e) then 1 else 0
  }

  ghost predicate JudgedOnce(es: seq<Event>, actual: Tree, expected: Option<Manifest>, eligible: Meta -> bool) {
    forall e :: multiset(es)[e] == if TrueOfExpected(actual, expected, eligible, e) then 1 else 0
  }

  lemma BothParts(a: seq<Event>, b: seq<Event>, previous: Tree, actual: Tree, expected: Option<Manifest>,
                  eligible: Meta -> bool)
    requires StructuralOnce(a, previous, actual) && JudgedOnce(b, actual, expected, eligible)
    ensures ExactEvents(a + b, previous, actual, expected, eligible)
  {
    forall e
      ensures multiset(a + b)[e] == if TrueEvent(previous, actual, expected, eligible, e) then 1 else 0
    {
      CountsAdd(a, b, e);
      assert e.Structural() ==>
          (TrueEvent(previous, actual, None, _ => true, e) <==> TrueEvent(previous, actual, expected, eligible, e));
    }
  }

  lemma CountsAdd(a: seq<Event>, b: seq<Event>, e: Event)
    ensures multiset(a + b)[e] == multiset(a)[e] + multiset(b)[e]
  {}

  lemma StructureCounts(previous: Tree, actual: Tree)
    ensures StructuralOnce(Structure(previous, actual), previous, actual)
  {
    StructureOncePerPath(previous, actual);
    forall e: Event
      ensures e in Structure(previous, actual) <==> Describes(previous, actual, e)
    {
      StructureIsExact(previous, actual, e);
    }
    DescribedOnce(Structure(previous, actual), previous, actual);
  }

  lemma DescribedOnce(es: seq<Event>, previous: Tree, actual: Tree)
    requires OncePerPath(es) && forall e :: e in es <==> Describes(previous, actual, e)
    ensures StructuralOnce(es, previous, actual)
  {
    forall e: Event
      ensures multiset(es)[e] == if e.Structural() && TrueEvent(previous, actual, None, _ => true, e) then 1 else 0
    {
      OnceIsOne(es, e);
      if AboutShared(e) {
        SharedEventIsTrue(previous, actual, e);
      }
    }
  }

  lemma JudgementCounts(actual: Tree, expected: Option<Manifest>, eligible: Meta -> bool)
    ensures JudgedOnce(Judgement(actual, expected, eligible), actual, expected, eligible)
  {
    if expected.Some? {
      var manifest := expected.value;
      SortedPathsDistinct(manifest.Keys);
      SortedPathsDistinct(actual.Keys);
      JudgedParts(actual, manifest, eligible, SortedPaths(manifest.Keys), SortedPaths(actual.Keys));
    }
  }

  lemma JudgedParts(actual: Tree, manifest: Manifest, eligible: Meta -> bool, xs: seq<Path>, ys: seq<Path>)
    requires Distinct(xs) && forall p :: p in xs <==> p in manifest.Keys
    requires Distinct(ys) && forall p :: p in ys <==> p in actual.Keys
    ensures JudgedOnce(Picks(xs, ExpectedOf(manifest, actual)) + Picks(ys, OrphanOf(manifest, actual, eligible)),
                       actual, Some(manifest), eligible)
  {
    var a, b := Picks(xs, ExpectedOf(manifest, actual)), Picks(ys, OrphanOf(manifest, actual, eligible));
    forall e
      ensures multiset(a + b)[e] == if TrueOfExpected(actual, Some(manifest), eligible, e) then 1 else 0
    {
      ExpectedOnce(actual, manifest, xs, e);
      OrphanOnce(actual, manifest, eligible, ys, e);
      CountsAdd(a, b, e);
    }
  }

  lemma ExpectedOnce(actual: Tree, manifest: Manifest, xs: seq<Path>, e: Event)
    requires Distinct(xs) && forall p :: p in xs <==> p in manifest.Keys
    ensures multiset(Picks(xs, ExpectedOf(manifest, actual)))[e] ==
              if (e.Missing? || e.Invalid?) && TrueOfExpected(actual, Some(manifest), _ => true, e) then 1 else 0
  {
    PicksOncePerPath(xs, |xs|, ExpectedOf(manifest, actual));
    OnceIsOne(Picks(xs, ExpectedOf(manifest, actual)), e);
    ExpectedPart(actual, manifest, xs, e);
  }

  lemma OrphanOnce(actual: Tree, manifest: Manifest, eligible: Meta -> bool, xs: seq<Path>, e: Event)
    requires Distinct(xs) && forall p :: p in xs <==> p in actual.Keys
    ensures multiset(Picks(xs, OrphanOf(manifest, actual, eligible)))[e] ==
              if e.Orphan? && TrueOfExpected(actual, Some(manifest), eligible, e) then 1 else 0
  {
    PicksOncePerPath(xs, |xs|, OrphanOf(manifest, actual, eligible));
    OnceIsOne(Picks(xs, OrphanOf(manifest, actual, eligible)), e);
    OrphanPart(actual, manifest, eligible, xs, e);
  }
}
