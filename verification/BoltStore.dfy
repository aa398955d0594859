/** The subtree walk of the persistent store: a cursor over sorted keys that starts at the
    prefix and stops at the first key that is not under it. */
module BoltStore {
  import opened Paths
  import opened Sorting

  /** Something not under the prefix sorts between the prefix and a key under it. */
  ghost predicate Gap(keys: seq<string>, prefix: string) {
    exists i, j | 0 <= i < j < |keys| ::
      !Less(keys[i], prefix) && !HasPrefix(keys[i], prefix) && HasPrefix(keys[j], prefix)
  }

  ghost predicate Complete(keys: seq<string>, prefix: string, visited: seq<string>) {
    forall k :: k in visited <==> k in keys && HasPrefix(k, prefix)
  }

  lemma {:induction false} PrefixIsNotLess(prefix: string, k: string)
    requires prefix <= k
    ensures !Less(k, prefix)
  {
    if prefix != "" {
      PrefixIsNotLess(prefix[1..], k[1..]);
    }
  }

  /** The keys from the first one that does not sort before the prefix up to the first one after
      it that is not under the prefix. */
  ghost predicate IsRun(keys: seq<string>, prefix: string, s: nat, e: nat) {
    && s <= e <= |keys|
    && (forall j | 0 <= j < s :: Less(keys[j], prefix)) && (s < |keys| ==> !Less(keys[s], prefix))
    && (forall j | s <= j < e :: HasPrefix(keys[j], prefix)) && (e < |keys| ==> !HasPrefix(keys[e], prefix))
  }

  /** The walk visits the run of keys under the prefix, in order and each once, up to the first
      foreign key; it visits all keys under the prefix exactly if there is no gap. */
  method WalkScope(keys: seq<string>, prefix: string) returns (visited: seq<string>, ghost s: nat, ghost e: nat)
    requires Ordered(keys, Less)
    ensures IsRun(keys, prefix, s, e) && visited == keys[s..e]
    ensures forall k | k in visited :: k in keys && HasPrefix(k, prefix)
    ensures Complete(keys, prefix, visited) <==> !Gap(keys, prefix)
  {
    var start := Seek(keys, prefix);
    var i := start;
    while i < |keys| && HasPrefix(keys[i], prefix)
      invariant start <= i <= |keys|
      invariant forall j | start <= j < i :: HasPrefix(keys[j], prefix)
    {
      i := i + 1;
    }
    visited, s, e := keys[start..i], start, i;
    RunIsComplete(keys, prefix, start, i);
  }

  /** The first key that does not sort before the prefix. */
  method Seek(keys: seq<string>, prefix: string) returns (start: nat)
    ensures start <= |keys| && (forall j | 0 <= j < start :: Less(keys[j], prefix))
    ensures start < |keys| ==> !Less(keys[start], prefix)
  {
    start := 0;
    while start < |keys| && Less(keys[start], prefix)
      invariant start <= |keys| && forall j | 0 <= j < start :: Less(keys[j], prefix)
    {
      start := start + 1;
    }
  }

  lemma RunIsComplete(keys: seq<string>, prefix: string, start: nat, end: nat)
    requires Ordered(keys, Less) && start <= end <= |keys|
    requires forall j | 0 <= j < start :: Less(keys[j], prefix)
    requires start < |keys| ==> !Less(keys[start], prefix)
    requires forall j | start <= j < end :: HasPrefix(keys[j], prefix)
    requires end < |keys| ==> !HasPrefix(keys[end], prefix)
    ensures Complete(keys, prefix, keys[start..end]) <==> !Gap(keys, prefix)
  {
    forall j | 0 <= j < |keys|
      ensures j < start ==> !HasPrefix(keys[j], prefix)
      ensures start <= j ==> !Less(keys[j], prefix)
    {
      if HasPrefix(keys[j], prefix) {
        PrefixIsNotLess(prefix, keys[j]);
      }
      if start <= j {
        NotLessFrom(keys, prefix, start, j);
      }
    }
    forall i, j | 0 <= i < j < |keys|
      ensures keys[i] != keys[j]
    {
      LessIrreflexive(keys[i]);
    }
    RunOf(keys, k => HasPrefix(k, prefix), k => Less(k, prefix), start, end);
  }

  /** The same for any run that starts where `before` ends and stops where `under` fails. */
  lemma RunOf(keys: seq<string>, under: string -> bool, before: string -> bool, start: nat, end: nat)
    requires Distinct(keys) && start <= end <= |keys|
    requires forall j | 0 <= j < start :: before(keys[j]) && !under(keys[j])
    requires forall j | start <= j < |keys| :: !before(keys[j])
    requires forall j | start <= j < end :: under(keys[j])
    requires end < |keys| ==> !under(keys[end])
    ensures (forall k :: k in keys[start..end] <==> k in keys && under(k)) <==>
              !(exists i, j | 0 <= i < j < |keys| :: !before(keys[i]) && !under(keys[i]) && under(keys[j]))
  {
    if i, j :| 0 <= i < j < |keys| && !before(keys[i]) && !under(keys[i]) && under(keys[j]) {
      assert end <= i;
      assert keys[j] !in keys[start..end];
    } else {
      forall j | 0 <= j < |keys| && under(keys[j])
        ensures keys[j] in keys[start..end]
      {
        assert end <= j ==> end < j;
        assert keys[j] == keys[start..end][j - start];
      }
    }
  }

  lemma NotLessFrom(keys: seq<string>, prefix: string, start: nat, i: nat)
    requires Ordered(keys, Less) && start <= i < |keys| && !Less(keys[start], prefix)
    ensures !Less(keys[i], prefix)
  {
    if start < i && Less(keys[i], prefix) {
      LessTransitive(keys[start], keys[i], prefix);
    }
  }

  /*** Which stored keys make a gap ***/

  /** Whatever sorts between a string and an extension of it is an extension itself. */
  lemma {:induction false} Between(p: string, k: string, t: string)
    requires Less(p, k) && Less(k, p + t)
    ensures p <= k
  {
    if p != "" {
      assert (p + t)[1..] == p[1..] + t;
      Between(p[1..], k[1..], t);
    }
  }

  /** The key extends the prefix by something that sorts before the separator. */
  predicate SortsBeforeChildren(k: string, prefix: string) {
    prefix < k && k[|prefix|] < '/'
  }

  predicate IsChild(k: string, prefix: string) {
    prefix < k && k[|prefix|] == '/'
  }

  lemma LowSortsBeforeChild(a: string, b: string, prefix: string)
    requires SortsBeforeChildren(a, prefix) && IsChild(b, prefix)
    ensures Less(a, b)
  {
    var u, t := a[|prefix|..], b[|prefix|..];
    assert a == prefix + u && b == prefix + t;
    assert Less(u, t);
    LessBehindPrefix(prefix, u, t);
  }

  lemma GapShows(keys: seq<string>, prefix: string, i: nat, j: nat)
    requires Ordered(keys, Less) && i < j < |keys|
    requires prefix != "" && !IsSeparator(prefix[|prefix| - 1]) && '\\' !in keys[j]
    requires !Less(keys[i], prefix) && !HasPrefix(keys[i], prefix) && HasPrefix(keys[j], prefix)
    ensures SortsBeforeChildren(keys[i], prefix) && IsChild(keys[j], prefix)
  {
    var a, b := keys[i], keys[j];
    LessTotal(a, prefix);
    assert Less(prefix, a) && Less(a, b);
    if b == prefix {
      LessTransitive(prefix, a, prefix);
      LessIrreflexive(prefix);
    }
    assert IsChild(b, prefix);
    var t := b[|prefix|..];
    assert b == prefix + t;
    Between(prefix, a, t);
    var u := a[|prefix|..];
    assert a == prefix + u;
    LessBehindPrefix(prefix, u, t);
  }

  /** For keys without backslashes, and a prefix that is not the filesystem root: the walk misses
      something exactly if there is a key below the prefix and a sibling whose name extends the
      prefix by a character that sorts before the separator. */
  lemma GapExactly(keys: seq<string>, prefix: string)
    requires Ordered(keys, Less) && forall k | k in keys :: '\\' !in k
    requires prefix != "" && !IsSeparator(prefix[|prefix| - 1])
    ensures Gap(keys, prefix) <==>
              exists a, b | a in keys && b in keys :: SortsBeforeChildren(a, prefix) && IsChild(b, prefix)
  {
    if Gap(keys, prefix) {
      var i, j :| 0 <= i < j < |keys| && !Less(keys[i], prefix) && !HasPrefix(keys[i], prefix)
        && HasPrefix(keys[j], prefix);
      assert keys[j] in keys && keys[i] in keys;
      GapShows(keys, prefix, i, j);
    }
    if a, b :| a in keys && b in keys && SortsBeforeChildren(a, prefix) && IsChild(b, prefix) {
      var i :| 0 <= i < |keys| && keys[i] == a;
      var j :| 0 <= j < |keys| && keys[j] == b;
      LowSiblingMakesGap(keys, prefix, i, j);
    }
  }

  lemma LowSiblingMakesGap(keys: seq<string>, prefix: string, i: nat, j: nat)
    requires Ordered(keys, Less) && i < |keys| && j < |keys|
    requires prefix != "" && !IsSeparator(prefix[|prefix| - 1])
    requires SortsBeforeChildren(keys[i], prefix) && IsChild(keys[j], prefix)
    ensures Gap(keys, prefix)
  {
    var a, b := keys[i], keys[j];
    LowSortsBeforeChild(a, b, prefix);
    PrefixIsNotLess(prefix, a);
    if j < i {
      LessTransitive(a, b, a);
    }
    LessIrreflexive(a);
    assert i < j;
    assert !HasPrefix(a, prefix) && HasPrefix(b, prefix);
  }

  /** Everything sorts under the filesystem root without a gap. */
  lemma NoGapAtRoot(keys: seq<string>)
    requires Ordered(keys, Less)
    ensures !Gap(keys, "/")
  {
    forall i, j | 0 <= i < j < |keys| && !Less(keys[i], "/") && HasPrefix(keys[j], "/")
      ensures HasPrefix(keys[i], "/")
    {
      LessTotal(keys[i], "/");
      if keys[i] != "/" {
        assert keys[j] == "/" + keys[j][1..];
        Between("/", keys[i], keys[j][1..]);
      }
    }
  }

  /** The sibling `a.txt` hides what is below `a`. */
  lemma SiblingHidesSubtree(keys: seq<string>)
    requires keys == ["/r/a", "/r/a.txt", "/r/a/x"]
    ensures Ordered(keys, Less) && Gap(keys, "/r/a")
  {
    var prefix := "/r/a";
    assert keys[1] == prefix + ".txt" && keys[2] == prefix + "/x" && keys[0] == prefix + "";
    assert Less("", ".txt") && Less("", "/x") && Less(".txt", "/x");
    LessBehindPrefix(prefix, "", ".txt");
    LessBehindPrefix(prefix, "", "/x");
    LessBehindPrefix(prefix, ".txt", "/x");
    PrefixIsNotLess(prefix, keys[1]);
    assert keys[1][|prefix|] == '.' && keys[2][|prefix|] == '/';
    assert !HasPrefix(keys[1], prefix) && HasPrefix(keys[2], prefix);
  }
}
