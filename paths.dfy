/**
 * Absolute paths and the token sequences the namespace tree is addressed by.
 *
 * The tree only ever asks a Hadoop path for its depth, its last component
 * (getName) and its parent (getParent), so an absolute path is modelled as
 * the root or a child of another absolute path.
 */
module Paths {

  /** A path reduced to its components, root first; the root is []. */
  type Path = seq<string>

  /** The path without its last component. */
  function Parent(p: Path): Path
    requires p != []
  {
    p[..|p| - 1]
  }

  /** The last component of a non-root path. */
  function Last(p: Path): string
    requires p != []
  {
    p[|p| - 1]
  }

  /** Extending a path by one component: the parent and the last component are recovered. */
  lemma ExtendInjective(a: Path, x: string, b: Path, y: string)
    ensures a + [x] == b + [y] <==> a == b && x == y
  {
    if a + [x] == b + [y] {
      assert a == (a + [x])[..|a|] && b == (b + [y])[..|b|];
    }
  }

  /** The first i + 1 components of a path are its first i components and then component i. */
  lemma PrefixStep(p: Path, i: nat)
    requires i < |p|
    ensures p[..i + 1] == p[..i] + [p[i]]
  {
  }

  /** A prefix of a path extended by one component is a prefix of the path, or the extended path itself. */
  lemma PrefixOfExtend(n: Path, q: Path, k: string)
    ensures n <= q + [k] <==> n <= q || n == q + [k]
  {
    if n <= q + [k] && |n| <= |q| {
      assert n == (q + [k])[..|n|] == q[..|n|];
    }
  }

  /** An absolute Hadoop path: "/" or a named child of another absolute path. */
  datatype HPath = Root | Child(parent: HPath, name: string)

  /** Path.depth(): the number of components below the root. */
  function Depth(p: HPath): nat
  {
    match p
    case Root => 0
    case Child(q, _) => Depth(q) + 1
  }

  /** The components of p, root to leaf ("/a/b/c" gives ["a", "b", "c"]). */
  function Components(p: HPath): Path
  {
    match p
    case Root => []
    case Child(q, n) => Components(q) + [n]
  }

  /** The absolute path whose components are ts. */
  function FromComponents(ts: Path): HPath
  {
    if ts == [] then Root else Child(FromComponents(Parent(ts)), Last(ts))
  }

  /** A path has as many components as its depth. */
  lemma {:induction false} ComponentsLength(p: HPath)
    ensures |Components(p)| == Depth(p)
  {
    match p
    case Root =>
    case Child(q, _) => ComponentsLength(q);
  }

  /** The token sequence determines the path: no information is lost by tokenizing. */
  lemma {:induction false} FromComponentsOfComponents(p: HPath)
    ensures FromComponents(Components(p)) == p
  {
    match p
    case Root =>
    case Child(q, n) =>
      assert Parent(Components(p)) == Components(q);
      FromComponentsOfComponents(q);
  }

  /** Every token sequence is the tokenization of some absolute path. */
  lemma {:induction false} ComponentsOfFromComponents(ts: Path)
    ensures Components(FromComponents(ts)) == ts
    decreases |ts|
  {
    if ts != [] {
      ComponentsOfFromComponents(Parent(ts));
    }
  }
}
