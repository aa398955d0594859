/** Absolute cleaned paths, their textual form, and the byte order that the
    stores and the diff sort by.

    A cleaned absolute path is the sequence of its names; the filesystem root is
    the empty sequence.  "Below" is then the prefix order of sequences.  The
    program itself tests containment on the text, so this module also relates the
    textual test to the prefix order. */
module Paths {

  predicate ValidName(s: string) {
    s != "" && s != "." && s != ".." && '/' !in s
  }

  type Path = seq<string>

  /** The names a cleaned absolute path can have. */
  predicate Valid(p: Path) {
    forall i | 0 <= i < |p| :: ValidName(p[i])
  }

  /** `q` is `p` or an ancestor of it. */
  predicate Above(q: Path, p: Path) {
    q <= p
  }

  lemma AboveTransitive(r: Path, q: Path, p: Path)
    requires Above(r, q) && Above(q, p)
    ensures Above(r, p)
  {}

  /** The text after the root: every name preceded by the separator. */
  function Text(p: Path): string {
    if p == [] then "" else "/" + p[0] + Text(p[1..])
  }

  /** The cleaned absolute path as the program holds it. */
  function Render(p: Path): string {
    if p == [] then "/" else Text(p)
  }

  /** The textual containment test (with both separators it accepts). */
  predicate HasPrefix(path: string, prefix: string) {
    || prefix == ""
    || path == prefix
    || (&& prefix <= path
        && (|| IsSeparator(prefix[|prefix| - 1])
            || (|path| > |prefix| && IsSeparator(path[|prefix|]))))
  }

  predicate IsSeparator(c: char) {
    c == '/' || c == '\\'
  }

  /** Order of strings by their bytes (code point order is the byte order of UTF-8). */
  predicate Less(a: string, b: string) {
    b != "" && (a == "" || a[0] < b[0] || (a[0] == b[0] && Less(a[1..], b[1..])))
  }

  /** Order of name sequences, name by name. */
  predicate NamesLess(p: Path, q: Path) {
    q != [] && (p == [] || Less(p[0], q[0]) || (p[0] == q[0] && NamesLess(p[1..], q[1..])))
  }

  /** The order of the textual forms.  Cleaned paths never share a text
      (`RenderInjective`), so the second case only makes the order total: on cleaned paths
      this is the byte order of the texts (`PathLessIsByteOrder`). */
  predicate PathLess(p: Path, q: Path) {
    || Less(Render(p), Render(q))
    || (Render(p) == Render(q) && NamesLess(p, q))
  }

  lemma {:induction false} LessIrreflexive(a: string)
    ensures !Less(a, a)
  {
    if a != "" {
      LessIrreflexive(a[1..]);
    }
  }

  lemma {:induction false} LessTransitive(a: string, b: string, c: string)
    requires Less(a, b) && Less(b, c)
    ensures Less(a, c)
  {
    if a != "" && a[0] == b[0] && b[0] == c[0] {
      LessTransitive(a[1..], b[1..], c[1..]);
    }
  }

  lemma {:induction false} LessTotal(a: string, b: string)
    ensures a == b || Less(a, b) || Less(b, a)
  {
    if a != "" && b != "" && a[0] == b[0] {
      LessTotal(a[1..], b[1..]);
      assert a == [a[0]] + a[1..] && b == [b[0]] + b[1..];
    }
  }

  /** How two strings compare is decided behind any common prefix. */
  lemma {:induction false} LessBehindPrefix(s: string, a: string, b: string)
    ensures Less(s + a, s + b) <==> Less(a, b)
  {
    if s == "" {
      assert s + a == a && s + b == b;
    } else {
      LessBehindPrefix(s[1..], a, b);
      assert (s + a)[1..] == s[1..] + a && (s + b)[1..] == s[1..] + b;
    }
  }

  lemma {:induction false} TextConcat(p: Path, q: Path)
    ensures Text(p + q) == Text(p) + Text(q)
  {
    if p == [] {
      assert p + q == q;
    } else {
      TextConcat(p[1..], q);
      assert (p + q)[1..] == p[1..] + q;
    }
  }

  /** A proper descendant has a strictly longer text. */
  lemma DescendantIsLonger(p: Path, q: Path)
    requires Above(q, p) && q != p
    ensures |Text(q)| < |Text(p)|
  {
    assert p == q + p[|q|..];
    TextConcat(q, p[|q|..]);
  }

  /** Two texts that agree up to a name boundary have the same first name. */
  lemma SameFirstName(a: string, b: string, s: string, t: string)
    requires '/' !in a && '/' !in b
    requires s == "" || s[0] == '/'
    requires t == "" || t[0] == '/'
    requires a + s <= b + t
    requires s == "" && |a + s| < |b + t| ==> (b + t)[|a|] == '/'
    ensures a == b && s <= t
  {
    var k := if |a| < |b| then |a| else |b|;
    assert k < |a + s| ==> (a + s)[k] == (b + t)[k];
    assert a == (a + s)[..|a|] && b == (b + t)[..|b|];
    assert s == (a + s)[|a|..] && t == (b + t)[|b|..];
  }

  /** A text that another extends at a name boundary belongs to an ancestor. */
  lemma {:induction false} TextPrefix(p: Path, q: Path)
    requires Valid(p) && Valid(q)
    requires Text(q) <= Text(p)
    requires |Text(p)| > |Text(q)| ==> Text(p)[|Text(q)|] == '/'
    ensures q <= p
  {
    if q != [] {
      var s, t := Text(q[1..]), Text(p[1..]);
      assert Text(q)[1..] == q[0] + s && Text(p)[1..] == p[0] + t;
      SameFirstName(q[0], p[0], s, t);
      TextPrefix(p[1..], q[1..]);
      assert q == [q[0]] + q[1..] && p == [p[0]] + p[1..];
    }
  }

  lemma RenderInjective(p: Path, q: Path)
    requires Valid(p) && Valid(q)
    requires Render(p) == Render(q)
    ensures p == q
  {
    if p != [] && q != [] {
      TextPrefix(p, q);
      TextPrefix(q, p);
    }
  }

  lemma {:induction false} NamesLessOrder(p: Path, q: Path)
    ensures !NamesLess(p, p)
    ensures p == q || NamesLess(p, q) || NamesLess(q, p)
  {
    if p != [] {
      LessIrreflexive(p[0]);
      NamesLessOrder(p[1..], if q == [] then [] else q[1..]);
    }
    if p != [] && q != [] {
      LessTotal(p[0], q[0]);
      assert p == [p[0]] + p[1..] && q == [q[0]] + q[1..];
    }
  }

  lemma {:induction false} NamesLessTransitive(p: Path, q: Path, r: Path)
    requires NamesLess(p, q) && NamesLess(q, r)
    ensures NamesLess(p, r)
  {
    if p != [] {
      LessIrreflexive(p[0]);
      if p[0] == q[0] && q[0] == r[0] {
        NamesLessTransitive(p[1..], q[1..], r[1..]);
      } else if p[0] != q[0] && q[0] != r[0] {
        LessTransitive(p[0], q[0], r[0]);
      }
    }
  }

  lemma PathLessOrder(p: Path, q: Path)
    ensures !PathLess(p, p)
    ensures p == q || PathLess(p, q) || PathLess(q, p)
  {
    LessIrreflexive(Render(p));
    LessTotal(Render(p), Render(q));
    NamesLessOrder(p, q);
  }

  lemma PathLessTransitive(p: Path, q: Path, r: Path)
    requires PathLess(p, q) && PathLess(q, r)
    ensures PathLess(p, r)
  {
    LessIrreflexive(Render(p));
    if Render(p) == Render(q) && Render(q) == Render(r) {
      NamesLessTransitive(p, q, r);
    } else if Render(p) != Render(q) && Render(q) != Render(r) {
      LessTransitive(Render(p), Render(q), Render(r));
    }
  }

  /** On cleaned paths the order is the byte order of their texts. */
  lemma PathLessIsByteOrder(p: Path, q: Path)
    requires Valid(p) && Valid(q)
    ensures PathLess(p, q) <==> Less(Render(p), Render(q))
  {
    NamesLessOrder(p, q);
    if Render(p) == Render(q) {
      RenderInjective(p, q);
    }
  }

  /** `p` has, in place of the last name of `q`, a name that extends it behind a backslash. */
  predicate BackslashTwin(p: Path, q: Path) {
    && 0 < |q| <= |p| && q[|q| - 1] != ""
    && var k := |q| - 1;
    && p[..k] == q[..k]
    && q[k] < p[k]
    && (q[k][|q[k]| - 1] == '\\' || p[k][|q[k]|] == '\\')
  }

  /** What a textual prefix says of the names: it agrees on all but the last, which it may cut
      short, and what follows in the longer text tells whether it does. */
  ghost predicate CutsLastName(p: Path, q: Path) {
    && 0 < |q| <= |p|
    && (forall i | 0 <= i < |q| - 1 :: p[i] == q[i])
    && var a, b := q[|q| - 1], p[|q| - 1];
    && a <= b
    && (a != b ==> |Text(p)| > |Text(q)| && Text(p)[|Text(q)|] == b[|a|])
    && (a == b && |Text(p)| > |Text(q)| ==> Text(p)[|Text(q)|] == '/')
  }

  lemma {:induction false} TextPrefixNames(p: Path, q: Path)
    requires Valid(p) && Valid(q)
    requires q != [] && Text(q) <= Text(p)
    ensures CutsLastName(p, q)
  {
    var s, t := Text(q[1..]), Text(p[1..]);
    assert Text(q)[1..] == q[0] + s && Text(p)[1..] == p[0] + t;
    if |q| == 1 {
      OneNameCut(p, q);
    } else {
      SameFirstName(q[0], p[0], s, t);
      TextPrefixNames(p[1..], q[1..]);
      CutBelow(p, q);
    }
  }

  lemma OneNameCut(p: Path, q: Path)
    requires Valid(p) && Valid(q) && |q| == 1 && p != [] && Text(q) <= Text(p)
    ensures CutsLastName(p, q)
  {
    var a, b, t := q[0], p[0], Text(p[1..]);
    var u, v := Text(q), Text(p);
    assert Text(q[1..]) == "";
    assert u == "/" + a && v == "/" + (b + t);
    assert u[1..] == a && v[1..] == b + t;
    assert a <= b + t;
    FirstNameCut(a, b, t);
    assert |v| > |u| ==> v[|u|] == (b + t)[|a|];
  }

  lemma CutBelow(p: Path, q: Path)
    requires p != [] && |q| > 1 && p[0] == q[0] && CutsLastName(p[1..], q[1..])
    ensures CutsLastName(p, q)
  {
    var p', q' := p[1..], q[1..];
    var s, t := Text(q'), Text(p');
    assert forall i | 0 < i < |p| :: p[i] == p'[i - 1];
    assert forall i | 0 < i < |q| :: q[i] == q'[i - 1];
    assert |Text(q)| == 1 + |q[0]| + |s| && |Text(p)| == 1 + |p[0]| + |t|;
    assert |t| > |s| ==> Text(p)[|Text(q)|] == t[|s|];
  }

  lemma FirstNameCut(a: string, b: string, t: string)
    requires '/' !in a && (t == "" || t[0] == '/')
    requires a <= b + t
    ensures a <= b
  {
    assert |b| < |b + t| ==> (b + t)[|b|] == t[0];
    assert |a| <= |b| ==> (b + t)[..|a|] == b[..|a|];
  }

  lemma {:induction false} TwinText(p: Path, q: Path)
    requires Valid(p) && Valid(q)
    requires 0 < |q| <= |p| && p[..|q| - 1] == q[..|q| - 1] && q[|q| - 1] <= p[|q| - 1]
    ensures Text(q) <= Text(p)
  {
    var k := |q| - 1;
    assert q == q[..k] + [q[k]] && p == q[..k] + p[k..];
    TextConcat(q[..k], [q[k]]);
    TextConcat(q[..k], p[k..]);
    assert Text([q[k]]) == "/" + q[k] + "" && Text(p[k..]) == "/" + p[k] + Text(p[k..][1..]);
    assert q[k] <= p[k] + Text(p[k..][1..]);
  }

  lemma HasPrefixOnlyIf(p: Path, q: Path)
    requires Valid(p) && Valid(q) && q != []
    requires HasPrefix(Render(p), Render(q))
    ensures q <= p || BackslashTwin(p, q)
  {
    var k := |q| - 1;
    LastOfText(q);
    assert Text(q) <= Text(p);
    TextPrefixNames(p, q);
    if p[k] == q[k] {
      assert forall i | 0 <= i < |q| :: p[i] == q[i];
    } else {
      assert p[..k] == q[..k];
    }
  }

  lemma HasPrefixIf(p: Path, q: Path)
    requires Valid(p) && Valid(q) && q != []
    requires q <= p || BackslashTwin(p, q)
    ensures HasPrefix(Render(p), Render(q))
  {
    assert q <= p ==> p[..|q| - 1] == q[..|q| - 1];
    LastOfText(q);
    TwinText(p, q);
    TextPrefixNames(p, q);
  }

  /** The textual test accepts exactly the descendants and, because it takes a
      backslash for a separator, the backslash twins. */
  lemma HasPrefixExactly(p: Path, q: Path)
    requires Valid(p) && Valid(q)
    ensures HasPrefix(Render(p), Render(q)) <==> q <= p || BackslashTwin(p, q)
  {
    if q != [] {
      if HasPrefix(Render(p), Render(q)) {
        HasPrefixOnlyIf(p, q);
      } else if q <= p || BackslashTwin(p, q) {
        HasPrefixIf(p, q);
      }
    }
  }

  lemma {:induction false} LastOfText(q: Path)
    requires Valid(q) && q != []
    ensures |Text(q)| > 1 && Text(q)[|Text(q)| - 1] == q[|q| - 1][|q[|q| - 1]| - 1]
  {
    if |q| > 1 {
      LastOfText(q[1..]);
    }
  }

  predicate NoBackslash(p: Path) {
    forall i | 0 <= i < |p| :: '\\' !in p[i]
  }

  /** Without backslashes in names the textual test is the ancestor relation. */
  lemma HasPrefixIsAncestor(p: Path, q: Path)
    requires Valid(p) && Valid(q) && NoBackslash(p)
    ensures HasPrefix(Render(p), Render(q)) <==> q <= p
  {
    HasPrefixExactly(p, q);
    if 0 < |q| <= |p| && q[|q| - 1] < p[|q| - 1] {
      var k := |q| - 1;
      assert q[k][|q[k]| - 1] == p[k][|q[k]| - 1];
    }
  }

  /** The file `a\\b` passes the test for lying under its sibling `a`. */
  lemma HasPrefixAcceptsSibling()
    ensures exists p: Path, q: Path :: Valid(p) && Valid(q) && HasPrefix(Render(p), Render(q)) && !(q <= p)
  {
    var p: Path, q: Path := ["a\\b"], ["a"];
    assert BackslashTwin(p, q) && p[0] != q[0];
    HasPrefixExactly(p, q);
  }
}
