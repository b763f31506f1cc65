/**
 * The namespace as a value: a map from every path present in the tree to
 * what is there.  This is the abstraction the INode operations are proved
 * against; the functions below say declaratively what each operation does
 * to it, and the lemmas state the properties of each operation.
 */
module TreeSpec {
  import opened Options
  import opened Paths

  type Bytes = seq<bv8>

  /** A directory, or a file with its content (None: content never set). */
  datatype Entry = Dir | File(content: Option<Bytes>)

  type Tree = map<Path, Entry>

  /** The root is a directory and every other path hangs below a directory. */
  ghost predicate WellFormed(t: Tree)
  {
    && [] in t && t[[]] == Dir
    && forall q | q in t && q != [] :: Parent(q) in t && t[Parent(q)] == Dir
  }

  /** p has at least one child in t. */
  ghost predicate HasChild(t: Tree, p: Path)
  {
    exists k :: p + [k] in t
  }

  /** A map keyed by paths without p and everything below it. */
  ghost function Prune<V>(t: map<Path, V>, p: Path): map<Path, V>
  {
    map q | q in t && !(p <= q) :: t[q]
  }

  /** Some strict, non-root ancestor of p is a file. */
  ghost predicate BlockedByFile(t: Tree, p: Path)
  {
    exists i | 0 < i < |p| :: p[..i] in t && t[p[..i]].File?
  }

  /** No non-root ancestor of p shorter than j components is a file. */
  ghost predicate NoFileAbove(t: Tree, p: Path, j: nat)
  {
    forall i | 0 < i < j && i <= |p| :: !(p[..i] in t && t[p[..i]].File?)
  }

  /**
   * The strict ancestors of p shorter than n components that are missing from
   * t and that a walk from the root reaches before it meets a file; with
   * n = |p|, the directories create makes.
   */
  ghost function MissingDirs(t: Tree, p: Path, n: nat): Tree
  {
    map j | 0 < j < n && j < |p| && p[..j] !in t && NoFileAbove(t, p, j) :: p[..j] := Dir
  }

  /**
   * The last step of create, on the tree its walk has left: a fresh leaf of
   * the requested kind if p is absent, a fresh empty file over an existing
   * file when a file is asked for with overwrite, and failure otherwise.
   */
  ghost function PlaceLeaf(t: Tree, p: Path, isDir: bool, overwriteFile: bool): (Tree, bool)
  {
    if p !in t then (t[p := if isDir then Dir else File(None)], true)
    else if t[p].File? && !isDir && overwriteFile then (t[p := File(None)], true)
    else (t, false)
  }

  /**
   * create(p, isDir, overwriteFile): walks the strict ancestors of p, making
   * the missing ones directories and giving up at the first file, then places
   * the leaf.  The root itself is never created.
   */
  ghost function Create(t: Tree, p: Path, isDir: bool, overwriteFile: bool): (Tree, bool)
  {
    if p == [] then (t, false)
    else
      var t' := t + MissingDirs(t, p, |p|);
      if BlockedByFile(t, p) then (t', false)
      else PlaceLeaf(t', p, isDir, overwriteFile)
  }

  /**
   * remove(p, recursive) is defined unless it is non-recursive and p is
   * missing below an existing directory (INode.java dereferences null there).
   */
  ghost predicate RemoveDefined(t: Tree, p: Path, recursive: bool)
  {
    recursive || p == [] || Parent(p) !in t || t[Parent(p)].File? || p in t
  }

  /**
   * remove(p, recursive): on the root, a recursive remove empties it; otherwise
   * p and its subtree are detached when its parent is a directory and p is a
   * file, an empty directory, or the remove is recursive.
   */
  ghost function Remove(t: Tree, p: Path, recursive: bool): (Tree, bool)
    requires RemoveDefined(t, p, recursive)
  {
    if p == [] then
      if recursive then (map[[] := Dir], true) else (t, false)
    else if Parent(p) !in t || t[Parent(p)].File? then (t, false)
    else if recursive || t[p].File? || !HasChild(t, p) then (Prune(t, p), true)
    else (t, false)
  }

  /** open(p): the bytes of the file at p (empty if never set); None for a directory or a missing path. */
  function Open(t: Tree, p: Path): Option<Bytes>
  {
    if p in t && t[p].File? then Some(if t[p].content.Some? then t[p].content.value else [])
    else None
  }

  /** setContent(p, c): replaces the content of an existing file, and does nothing otherwise. */
  function SetContent(t: Tree, p: Path, c: Option<Bytes>): Tree
  {
    if p in t && t[p].File? then t[p := File(c)] else t
  }

  // ---------------------------------------------------------------------
  // Properties

  /** Every ancestor of a path in a well-formed tree is present, and is a directory. */
  lemma {:induction false} AncestorsPresent(t: Tree, q: Path, i: nat)
    requires WellFormed(t) && q in t && i <= |q|
    ensures q[..i] in t
    ensures i < |q| ==> t[q[..i]] == Dir
    decreases |q| - i
  {
    if i < |q| {
      AncestorsPresent(t, q, i + 1);
      assert Parent(q[..i + 1]) == q[..i];
    } else {
      assert q[..i] == q;
    }
  }

  /** A missing path has nothing below it. */
  lemma MissingHasNoDescendants(t: Tree, p: Path, q: Path)
    requires WellFormed(t) && p !in t && q in t
    ensures !(p <= q)
  {
    if p <= q {
      assert q[..|p|] == p;
      AncestorsPresent(t, q, |p|);
    }
  }

  /**
   * In a well-formed tree a create that meets a file on the way, or whose leaf
   * already exists, adds no directories: every ancestor it walks through exists.
   */
  lemma NoMissingDirsWhenBlockedOrPresent(t: Tree, p: Path)
    requires WellFormed(t) && p != []
    requires BlockedByFile(t, p) || p in t
    ensures MissingDirs(t, p, |p|) == map[]
  {
    forall j | 0 < j < |p| && p[..j] !in t
      ensures !NoFileAbove(t, p, j)
    {
      if p in t {
        AncestorsPresent(t, p, j);
      } else {
        var i :| 0 < i < |p| && p[..i] in t && t[p[..i]].File?;
        if i >= j {
          assert p[..i][..j] == p[..j];
          AncestorsPresent(t, p[..i], j);
        }
      }
    }
  }

  /** The keys MissingDirs gains when the walk is extended by one component. */
  lemma MissingDirsStepKeys(t: Tree, p: Path, n: nat)
    requires 0 < n < |p|
    ensures forall q :: q in MissingDirs(t, p, n + 1) <==>
      q in MissingDirs(t, p, n) || (q == p[..n] && p[..n] !in t && NoFileAbove(t, p, n))
  {
    var m, m' := MissingDirs(t, p, n), MissingDirs(t, p, n + 1);
    forall q | q in m'
      ensures q in m || (q == p[..n] && p[..n] !in t && NoFileAbove(t, p, n))
    {
      var j :| 0 < j < n + 1 && j < |p| && p[..j] !in t && NoFileAbove(t, p, j) && q == p[..j];
      if j < n {
        assert q in m;
      }
    }
    forall q | q in m
      ensures q in m'
    {
      var j :| 0 < j < n && j < |p| && p[..j] !in t && NoFileAbove(t, p, j) && q == p[..j];
    }
    if p[..n] !in t && NoFileAbove(t, p, n) {
      assert p[..n] in m';
    }
  }

  /** Extending the walk by one component adds that prefix when it is missing and no file lies above it. */
  lemma MissingDirsStep(t: Tree, p: Path, n: nat)
    requires 0 < n < |p|
    ensures p[..n] !in t && NoFileAbove(t, p, n) ==> MissingDirs(t, p, n + 1) == MissingDirs(t, p, n)[p[..n] := Dir]
    ensures !(p[..n] !in t && NoFileAbove(t, p, n)) ==> MissingDirs(t, p, n + 1) == MissingDirs(t, p, n)
  {
    MissingDirsStepKeys(t, p, n);
  }

  /** A walk that meets a file at p[..n] adds nothing further. */
  lemma MissingDirsStopAtFile(t: Tree, p: Path, n: nat)
    requires 0 < n < |p| && p[..n] in t && t[p[..n]].File?
    ensures MissingDirs(t, p, |p|) == MissingDirs(t, p, n)
  {
    var m, m' := MissingDirs(t, p, n), MissingDirs(t, p, |p|);
    forall q | q in m'
      ensures q in m
    {
      var j :| 0 < j < |p| && p[..j] !in t && NoFileAbove(t, p, j) && q == p[..j];
    }
  }

  /** Create's walk meets a missing component below no file: it becomes a directory. */
  lemma WalkCreatesMissing(t: Tree, p: Path, i: nat)
    requires i + 1 < |p| && NoFileAbove(t, p, i + 1) && p[..i + 1] !in t + MissingDirs(t, p, i + 1)
    ensures (t + MissingDirs(t, p, i + 1))[p[..i + 1] := Dir] == t + MissingDirs(t, p, i + 2)
    ensures NoFileAbove(t, p, i + 2)
  {
    var m, m', x := MissingDirs(t, p, i + 1), MissingDirs(t, p, i + 2), p[..i + 1];
    MissingDirsStep(t, p, i + 1);
    assert m' == m[x := Dir];
    UpdateOfUnion(t, m, x, Dir);
  }

  /** Updating a union is updating its right operand. */
  lemma UpdateOfUnion(a: Tree, b: Tree, k: Path, v: Entry)
    ensures (a + b)[k := v] == a + b[k := v]
  {
  }

  /** Create's walk passes an existing directory: nothing is added. */
  lemma WalkPassesDir(t: Tree, p: Path, i: nat)
    requires i + 1 < |p| && NoFileAbove(t, p, i + 1)
    requires p[..i + 1] in t + MissingDirs(t, p, i + 1) && (t + MissingDirs(t, p, i + 1))[p[..i + 1]] == Dir
    ensures t + MissingDirs(t, p, i + 1) == t + MissingDirs(t, p, i + 2)
    ensures NoFileAbove(t, p, i + 2)
  {
    MissingDirsStep(t, p, i + 1);
  }

  /** Create's walk meets a file: create fails with whatever the walk has added. */
  lemma WalkMeetsFile(t: Tree, p: Path, i: nat, isDir: bool, overwriteFile: bool)
    requires i + 1 < |p| && NoFileAbove(t, p, i + 1)
    requires p[..i + 1] in t + MissingDirs(t, p, i + 1) && (t + MissingDirs(t, p, i + 1))[p[..i + 1]].File?
    ensures Create(t, p, isDir, overwriteFile) == (t + MissingDirs(t, p, i + 1), false)
  {
    MissingDirsStopAtFile(t, p, i + 1);
  }

  /** Create's walk reaches the leaf: the leaf decides the outcome. */
  lemma WalkReachesLeaf(t: Tree, p: Path, isDir: bool, overwriteFile: bool)
    requires p != [] && NoFileAbove(t, p, |p|)
    ensures Create(t, p, isDir, overwriteFile) == PlaceLeaf(t + MissingDirs(t, p, |p|), p, isDir, overwriteFile)
  {
  }

  /** create keeps the tree well formed. */
  lemma CreatePreservesWellFormed(t: Tree, p: Path, isDir: bool, overwriteFile: bool)
    requires WellFormed(t)
    ensures WellFormed(Create(t, p, isDir, overwriteFile).0)
  {
    if p != [] {
      var m := MissingDirs(t, p, |p|);
      var t' := t + m;
      if BlockedByFile(t, p) || p in t {
        NoMissingDirsWhenBlockedOrPresent(t, p);
        assert t' == t;
      }
      assert WellFormed(t') by {
        forall q | q in t' && q != []
          ensures Parent(q) in t' && t'[Parent(q)] == Dir
        {
          if q !in t {
            var j :| 0 < j < |p| && p[..j] !in t && NoFileAbove(t, p, j) && q == p[..j];
            assert Parent(q) == p[..j - 1];
            if j - 1 > 0 && p[..j - 1] !in t {
              assert NoFileAbove(t, p, j - 1);
              assert p[..j - 1] in m;
            }
          }
        }
      }
      var (r, ok) := Create(t, p, isDir, overwriteFile);
      if ok {
        forall q | q in r && q != []
          ensures Parent(q) in r && r[Parent(q)] == Dir
        {
          if q == p {
            if |p| > 1 && Parent(p) !in t {
              assert NoFileAbove(t, p, |p| - 1);
              assert Parent(p) in m;
            }
          } else {
            assert q in t';
          }
        }
      }
    }
  }

  /**
   * create on an absent leaf below no file succeeds: the leaf gets the requested
   * kind, a new directory is empty, every ancestor is a directory and nothing
   * that was in the tree changes.
   */
  lemma CreateNewLeaf(t: Tree, p: Path, isDir: bool, overwriteFile: bool)
    requires WellFormed(t) && p != [] && p !in t && !BlockedByFile(t, p)
    ensures var (r, ok) := Create(t, p, isDir, overwriteFile);
      && ok
      && p in r && r[p] == (if isDir then Dir else File(None))
      && !HasChild(r, p)
      && (forall i | 0 <= i < |p| :: p[..i] in r && r[p[..i]] == Dir)
      && (forall q | q in t :: q in r && r[q] == t[q])
      && (forall q | q in r :: q in t || q <= p)
  {
    var (r, ok) := Create(t, p, isDir, overwriteFile);
    var m := MissingDirs(t, p, |p|);
    forall i | 0 <= i < |p|
      ensures p[..i] in r && r[p[..i]] == Dir
    {
      if i > 0 && p[..i] !in t {
        assert p[..i] in m;
      }
    }
  }

  /** create on the root, or on an existing directory, fails and changes nothing (it is not idempotent). */
  lemma CreateExistingDirFails(t: Tree, p: Path, isDir: bool, overwriteFile: bool)
    requires WellFormed(t) && p in t && t[p] == Dir
    ensures Create(t, p, isDir, overwriteFile) == (t, false)
  {
    if p != [] {
      NoMissingDirsWhenBlockedOrPresent(t, p);
      assert t + MissingDirs(t, p, |p|) == t;
    }
  }

  /**
   * create on an existing file succeeds only for a file with overwrite, and
   * then leaves a fresh file that opens as empty; otherwise nothing changes.
   */
  lemma CreateExistingFile(t: Tree, p: Path, isDir: bool, overwriteFile: bool)
    requires WellFormed(t) && p in t && t[p].File?
    ensures var (r, ok) := Create(t, p, isDir, overwriteFile);
      && ok == (!isDir && overwriteFile)
      && r == (if ok then t[p := File(None)] else t)
      && (ok ==> Open(r, p) == Some([]))
  {
    assert p != [];
    NoMissingDirsWhenBlockedOrPresent(t, p);
    assert t + MissingDirs(t, p, |p|) == t;
    if BlockedByFile(t, p) {
      var i :| 0 < i < |p| && p[..i] in t && t[p[..i]].File?;
      AncestorsPresent(t, p, i);
    }
  }

  /** A create that meets a file on the way fails and changes nothing: no half-built chain is left behind. */
  lemma CreateBlockedChangesNothing(t: Tree, p: Path, isDir: bool, overwriteFile: bool)
    requires WellFormed(t) && BlockedByFile(t, p)
    ensures Create(t, p, isDir, overwriteFile) == (t, false)
  {
    NoMissingDirsWhenBlockedOrPresent(t, p);
    assert t + MissingDirs(t, p, |p|) == t;
  }

  /** remove keeps the tree well formed. */
  lemma RemovePreservesWellFormed(t: Tree, p: Path, recursive: bool)
    requires WellFormed(t) && RemoveDefined(t, p, recursive)
    ensures WellFormed(Remove(t, p, recursive).0)
  {
    var (r, ok) := Remove(t, p, recursive);
    if p != [] && ok {
      forall q | q in r && q != []
        ensures Parent(q) in r && r[Parent(q)] == Dir
      {
      }
    }
  }

  /**
   * A successful remove of a non-root path detaches exactly p and its subtree:
   * p no longer resolves, everything outside the subtree keeps its entry, and a
   * failed remove changes nothing.
   */
  lemma RemoveDetachesSubtree(t: Tree, p: Path, recursive: bool)
    requires WellFormed(t) && RemoveDefined(t, p, recursive) && p != []
    ensures var (r, ok) := Remove(t, p, recursive);
      && (ok ==> p !in r && forall q :: q in r <==> q in t && !(p <= q))
      && (ok ==> forall q | q in r :: r[q] == t[q])
      && (!ok ==> r == t)
  {
  }

  /** A recursive remove of a missing leaf below a directory succeeds and changes nothing. */
  lemma RemoveMissingRecursive(t: Tree, p: Path)
    requires WellFormed(t) && p != [] && p !in t && Parent(p) in t && t[Parent(p)] == Dir
    ensures Remove(t, p, true) == (t, true)
  {
    forall q | q in t
      ensures q in Prune(t, p) && Prune(t, p)[q] == t[q]
    {
      MissingHasNoDescendants(t, p, q);
    }
    assert Prune(t, p) == t;
  }

  /**
   * On an existing non-root path, a non-recursive remove fails exactly when p
   * is a directory with children, and a recursive remove always succeeds.
   */
  lemma RemoveExisting(t: Tree, p: Path)
    requires WellFormed(t) && p in t && p != []
    ensures !Remove(t, p, false).1 <==> t[p] == Dir && HasChild(t, p)
    ensures Remove(t, p, true).1
  {
  }

  /**
   * On the root, a non-recursive remove fails and changes nothing; a recursive
   * one leaves only the empty root.
   */
  lemma RemoveRoot(t: Tree)
    requires WellFormed(t)
    ensures Remove(t, [], false) == (t, false)
    ensures var (r, ok) := Remove(t, [], true);
      ok && WellFormed(r) && forall q | q in r :: q == []
  {
  }

  /** setContent then open gives back the content on a file; on anything else both leave the tree as it was. */
  lemma SetContentThenOpen(t: Tree, p: Path, c: Option<Bytes>)
    ensures Open(SetContent(t, p, c), p) ==
      if p in t && t[p].File? then Some(if c.Some? then c.value else []) else None
    ensures !(p in t && t[p].File?) ==> SetContent(t, p, c) == t
    ensures forall q | q in t && q != p :: q in SetContent(t, p, c) && SetContent(t, p, c)[q] == t[q]
  {
  }
}
