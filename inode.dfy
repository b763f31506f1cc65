/**
 * The in-memory namespace tree: a mutable tree of INode objects.  A node is a
 * directory or a file; a directory holds its children in a map keyed by name.
 * Every operation is invoked on the root with an absolute path.
 *
 * The root carries two ghost fields: Nodes maps every path present in the
 * tree to the node at that path, and Tree is the value of the tree in the
 * terms of module TreeSpec.  Valid() ties both to the children maps (the tree
 * is acyclic, each node is reachable by exactly one path, each child is stored
 * under its own name), and every operation is proved against the TreeSpec
 * function of the same name.
 */
module Namespace {
  import opened Options
  import opened Paths
  import opened StringOrder
  import TreeSpec

  class INode {
    /** The node's name: its key in its parent's children. */
    const name: string
    /** A directory (its Java children map is non-null) or a file (it is null). */
    const isDir: bool
    /** The children of a directory by name; always empty for a file. */
    var children: map<string, INode>
    /** The content of a file; None stands for the null array. */
    var content: Option<TreeSpec.Bytes>
    /** Every node of the tree rooted here, by path; kept on the node the operations are invoked on. */
    ghost var Nodes: map<Path, INode>
    /** The tree rooted here as a value. */
    ghost var Tree: TreeSpec.Tree
    /** The children map of every node in Nodes, by path. */
    ghost var Kids: map<Path, map<string, INode>>
    /** The path of every node in Nodes (and possibly of nodes since detached): each node is at one path only. */
    ghost var PathOf: map<INode, Path>

    /** What the tree holds at a node. */
    static ghost function EntryOf(n: INode): TreeSpec.Entry
      reads n
    {
      if n.isDir then TreeSpec.Dir else TreeSpec.File(n.content)
    }

    /**
     * The shape of a tree given by its nodes and their children maps: files
     * are childless, each child sits at its parent's path extended by its
     * name, and each node but the root is the child of the node one level up.
     */
    static ghost predicate Linked(nodes: map<Path, INode>, kids: map<Path, map<string, INode>>)
    {
      && kids.Keys == nodes.Keys
      && (forall q | q in nodes && !nodes[q].isDir :: kids[q] == map[])
      && (forall q, k {:trigger k in kids[q]} | q in kids && k in kids[q] ::
            q + [k] in nodes && nodes[q + [k]] == kids[q][k] && kids[q][k].name == k)
      && (forall q, k {:trigger q + [k]} | q + [k] in nodes :: q in kids && k in kids[q])
    }

    /** The tree invariant, for this node as the root. */
    ghost predicate Valid()
      reads this, PathOf.Keys
    {
      && [] in Nodes && Nodes[[]] == this && isDir
      && Tree.Keys == Nodes.Keys
      && Linked(Nodes, Kids)
      && (forall q | q in Nodes ::
            Nodes[q] in PathOf && PathOf[Nodes[q]] == q && Tree[q] == EntryOf(Nodes[q]) && Nodes[q].children == Kids[q])
    }

    /** Attaching a childless node under a directory, in place of nothing or of a file, keeps the shape. */
    static lemma LinkedPut(nodes: map<Path, INode>, kids: map<Path, map<string, INode>>, q: Path, child: INode)
      requires Linked(nodes, kids) && q in nodes && nodes[q].isDir
      requires q + [child.name] in nodes ==> !nodes[q + [child.name]].isDir
      ensures Linked(nodes[q + [child.name] := child],
                     kids[q := kids[q][child.name := child]][q + [child.name] := map[]])
    {
      var n := q + [child.name];
      var nodes' := nodes[n := child];
      var kids' := kids[q := kids[q][child.name := child]][n := map[]];
      assert n != q;
      forall q1, k {:trigger k in kids'[q1]} | q1 in kids' && k in kids'[q1]
        ensures q1 + [k] in nodes' && nodes'[q1 + [k]] == kids'[q1][k] && kids'[q1][k].name == k
      {
        ExtendInjective(q1, k, q, child.name);
      }
      forall q1, k {:trigger q1 + [k]} | q1 + [k] in nodes'
        ensures q1 in kids' && k in kids'[q1]
      {
        ExtendInjective(q1, k, q, child.name);
        if q1 + [k] != n {
          assert q1 in kids && k in kids[q1];
          assert q1 != n;
        }
      }
    }

    /** INode(name, isDir): a fresh node with no children and no content. */
    constructor (name: string, isDir: bool)
      ensures this.name == name && this.isDir == isDir
      ensures children == map[] && content == None
      ensures Nodes == map[[] := this] && Kids == map[[] := map[]] && PathOf == map[this := []]
      ensures Tree == map[[] := if isDir then TreeSpec.Dir else TreeSpec.File(None)]
    {
      this.name := name;
      this.isDir := isDir;
      children := map[];
      content := None;
      new;
      Nodes := map[[] := this];
      Kids := map[[] := map[]];
      Tree := map[[] := if isDir then TreeSpec.Dir else TreeSpec.File(None)];
      PathOf := map[this := []];
    }

    /** root(): a fresh, empty root directory named "root". */
    static method Root() returns (r: INode)
      ensures fresh(r) && fresh(r.PathOf.Keys) && r.Valid() && r.name == "root"
      ensures r.Tree == map[[] := TreeSpec.Dir]
    {
      r := new INode("root", true);
    }

    /** The tree of a valid root is well formed. */
    lemma TreeWellFormed()
      requires Valid()
      ensures TreeSpec.WellFormed(Tree)
    {
      forall q | q in Nodes && q != []
        ensures Parent(q) in Nodes && Nodes[Parent(q)].isDir
      {
        assert q == Parent(q) + [Last(q)];
        assert Last(q) in Kids[Parent(q)];
      }
    }

    /** Every strict ancestor of a node's path is a directory node. */
    lemma AncestorIsDir(q: Path, i: nat)
      requires Valid() && q in Nodes && i < |q|
      ensures q[..i] in Nodes && Nodes[q[..i]].isDir
    {
      TreeWellFormed();
      TreeSpec.AncestorsPresent(Tree, q, i);
    }

    /** tokenize(p): the components of p, filled from the leaf back to the root. */
    static method Tokenize(p: HPath) returns (tokens: array<string>)
      ensures tokens.Length == Depth(p)
      ensures tokens[..] == Components(p)
    {
      ComponentsLength(p);
      tokens := new string[Depth(p)];
      var q := p;
      var i := tokens.Length - 1;
      while i >= 0
        invariant -1 <= i < tokens.Length
        invariant Components(q) == Components(p)[..i + 1]
        invariant tokens[i + 1..] == Components(p)[i + 1..]
      {
        ComponentsLength(q);
        assert Components(q) == Components(q.parent) + [q.name];
        assert Components(p)[..i] == Components(p)[..i + 1][..i];
        ghost var tail := tokens[i + 1..];
        tokens[i] := q.name;
        assert tokens[i + 1..] == tail;
        assert Components(p)[i] == q.name;
        assert Components(p)[i..] == [q.name] + Components(p)[i + 1..];
        assert tokens[i..] == [q.name] + tail;
        q := q.parent;
        i := i - 1;
      }
    }

    /** get(p): the node at p, or null when some component is missing or lies below a file. */
    method Get(p: HPath) returns (r: INode?)
      requires Valid()
      ensures r != null <==> Components(p) in Nodes
      ensures r != null ==> r == Nodes[Components(p)]
      ensures p.Root? ==> r == this
    {
      var tmp: INode? := this;
      var tokens := Tokenize(p);
      ghost var ts := tokens[..];
      for i := 0 to tokens.Length
        invariant tmp != null <==> ts[..i] in Nodes
        invariant tmp != null ==> tmp == Nodes[ts[..i]]
      {
        if tmp == null || !tmp.isDir {
          if ts in Nodes {
            AncestorIsDir(ts, i);
          }
          return null;
        }
        assert ts[..i + 1] == ts[..i] + [tokens[i]];
        tmp := if tokens[i] in tmp.children then tmp.children[tokens[i]] else null;
      }
      assert ts[..tokens.Length] == ts;
      return tmp;
    }

    /** Attaching a childless node under a directory, with the ghost state updated to match, keeps the tree valid. */
    twostate lemma PutPreservesValid(c: Change)
      requires c.Attach?
      requires old(c.r.Valid()) && c.q in old(c.r.Nodes) && old(c.r.Nodes[c.q]) == c.dir && c.dir.isDir
      requires c.child !in old(c.r.PathOf).Keys && c.child.children == map[]
      requires c.child.name in old(c.dir.children) ==> !old(c.dir.children[c.child.name]).isDir
      requires c.r.Nodes == old(c.r.Nodes)[c.q + [c.child.name] := c.child]
      requires c.dir.children == old(c.dir.children)[c.child.name := c.child]
      requires c.r.Kids == old(c.r.Kids)[c.q := old(c.r.Kids)[c.q][c.child.name := c.child]][c.q + [c.child.name] := map[]]
      requires c.r.Tree == old(c.r.Tree)[c.q + [c.child.name] := EntryOf(c.child)]
      requires c.r.PathOf == old(c.r.PathOf)[c.child := c.q + [c.child.name]]
      requires unchanged(old(c.r.PathOf).Keys - {c.dir, c.r})
      requires c.r != c.dir ==> c.r.children == old(c.r.children)
      requires c.r.content == old(c.r.content)
      ensures c.r.Valid()
    {
      var n := c.q + [c.child.name];
      LinkedPut(old(c.r.Nodes), old(c.r.Kids), c.q, c.child);
      forall q1 | q1 in c.r.Nodes
        ensures c.r.Tree[q1] == EntryOf(c.r.Nodes[q1]) && c.r.Nodes[q1].children == c.r.Kids[q1]
        ensures c.r.Nodes[q1] in c.r.PathOf && c.r.PathOf[c.r.Nodes[q1]] == q1
      {
        if q1 == c.q {
          assert old(c.dir.children) == old(c.r.Kids[c.q]);
        } else if q1 != n {
          var x := old(c.r.Nodes[q1]);
          assert c.r.Nodes[q1] == x && x != c.dir && x in old(c.r.PathOf);
          assert x.children == old(x.children) && x.content == old(x.content);
          assert c.r.Kids[q1] == old(c.r.Kids[q1]);
        }
      }
    }

    /**
     * children.put(child.name, child) on the directory at path q: attaches a
     * childless node that is not yet in the tree, possibly in place of a file,
     * and records it in the ghost state.
     */
    method PutChild(ghost q: Path, dir: INode, child: INode)
      requires Valid() && q in Nodes && Nodes[q] == dir && dir.isDir
      requires child !in PathOf.Keys && child != this && child.children == map[]
      requires child.name in dir.children ==> !dir.children[child.name].isDir
      modifies this, dir
      ensures Valid()
      ensures Nodes == old(Nodes)[q + [child.name] := child]
      ensures Tree == old(Tree)[q + [child.name] := EntryOf(child)]
      ensures PathOf == old(PathOf)[child := q + [child.name]]
    {
      ghost var n := q + [child.name];
      dir.children := dir.children[child.name := child];
      Nodes, Kids, Tree, PathOf :=
        Nodes[n := child], Kids[q := Kids[q][child.name := child]][n := map[]], Tree[n := EntryOf(child)], PathOf[child := n];
      PutPreservesValid(Attach(this, q, dir, child));
    }

    /** Every node of n0 is still in the tree, at the same path. */
    ghost predicate Keeps(n0: map<Path, INode>)
      reads this
    {
      forall q | q in n0 :: q in Nodes && Nodes[q] == n0[q]
    }

    /**
     * The state of create's walk before it looks at component i of ts: the
     * tree is valid and keeps the nodes n0 it started with, the walk stands at
     * the directory holding ts[..i], no file lies above it, and the
     * directories made so far are those the specification adds up to there.
     */
    ghost predicate Walking(t0: TreeSpec.Tree, n0: map<Path, INode>, ts: Path, i: nat, dir: INode)
      reads this, PathOf.Keys
    {
      && Valid() && Keeps(n0) && i < |ts|
      && ts[..i] in Nodes && Nodes[ts[..i]] == dir && dir.isDir
      && TreeSpec.NoFileAbove(t0, ts, i + 1) && Tree == t0 + TreeSpec.MissingDirs(t0, ts, i + 1)
    }

    /**
     * One iteration of create's walk: below the directory at ts[..i], the
     * child named ts[i] is made a new directory when absent; null when that
     * child is a file, which ends create with false.
     */
    method StepDown(ghost t0: TreeSpec.Tree, ghost n0: map<Path, INode>, ghost ts: Path, ghost i: nat, dir: INode,
                    token: string, ghost isDir: bool, ghost overwriteFile: bool) returns (node: INode?)
      requires Walking(t0, n0, ts, i, dir) && i + 1 < |ts| && ts[i] == token
      modifies this, dir
      ensures forall o {:trigger o in PathOf} | o in PathOf :: o in old(PathOf) || fresh(o)
      ensures node == null ==> Valid() && Keeps(n0) && (Tree, false) == TreeSpec.Create(t0, ts, isDir, overwriteFile)
      ensures node != null ==> Walking(t0, n0, ts, i + 1, node)
    {
      PrefixStep(ts, i);
      node := if token in dir.children then dir.children[token] else null;
      if node == null {
        node := MakeDir(t0, n0, ts, i, dir, token);
      } else if node.isDir {
        TreeSpec.WalkPassesDir(t0, ts, i);
      } else {
        TreeSpec.WalkMeetsFile(t0, ts, i, isDir, overwriteFile);
        node := null;
      }
    }

    /** The missing directory ts[..i + 1] of create's walk: a new node put under dir. */
    method MakeDir(ghost t0: TreeSpec.Tree, ghost n0: map<Path, INode>, ghost ts: Path, ghost i: nat, dir: INode,
                   token: string) returns (node: INode)
      requires Walking(t0, n0, ts, i, dir) && i + 1 < |ts| && ts[i] == token && token !in dir.children
      modifies this, dir
      ensures forall o {:trigger o in PathOf} | o in PathOf :: o in old(PathOf) || fresh(o)
      ensures fresh(node) && Walking(t0, n0, ts, i + 1, node)
    {
      PrefixStep(ts, i);
      TreeSpec.WalkCreatesMissing(t0, ts, i);
      node := new INode(token, true);
      ghost var t1 := Tree;
      PutChild(ts[..i], dir, node);
      assert Tree == t1[ts[..i + 1] := TreeSpec.Dir];
    }

    /**
     * The walk of create over the strict ancestors of the path: it stops at
     * the first file (null) or returns the directory that is to hold the leaf.
     */
    method Walk(tokens: array<string>, ghost ts: Path, ghost isDir: bool, ghost overwriteFile: bool) returns (dir: INode?)
      requires Valid() && tokens[..] == ts && ts != []
      modifies this, PathOf.Keys
      ensures forall o {:trigger o in PathOf} | o in PathOf :: o in old(PathOf) || fresh(o)
      ensures dir == null ==> Valid() && Keeps(old(Nodes)) && (Tree, false) == TreeSpec.Create(old(Tree), ts, isDir, overwriteFile)
      ensures dir != null ==> Walking(old(Tree), old(Nodes), ts, |ts| - 1, dir)
    {
      var tmp: INode := this;
      ghost var t0, n0 := Tree, Nodes;
      var i := 0;
      while i < tokens.Length - 1
        invariant Walking(t0, n0, ts, i, tmp)
        invariant forall o {:trigger o in PathOf} | o in PathOf :: o in old(PathOf) || fresh(o)
      {
        var node := StepDown(t0, n0, ts, i, tmp, tokens[i], isDir, overwriteFile);
        if node == null {
          return null;
        }
        tmp := node;
        i := i + 1;
      }
      return tmp;
    }

    /**
     * The leaf step of create: below the directory the walk ended at, a fresh
     * node of the requested kind replaces nothing, or a fresh file replaces a
     * file when overwrite is asked for; otherwise nothing changes.
     */
    method PlaceLeaf(ghost ts: Path, dir: INode, token: string, isDir: bool, overwriteFile: bool) returns (ok: bool)
      requires Valid() && ts != [] && Last(ts) == token
      requires Parent(ts) in Nodes && Nodes[Parent(ts)] == dir && dir.isDir
      modifies this, dir
      ensures Valid()
      ensures (Tree, ok) == TreeSpec.PlaceLeaf(old(Tree), ts, isDir, overwriteFile)
      ensures forall o {:trigger o in PathOf} | o in PathOf :: o in old(PathOf) || fresh(o)
      ensures !ok ==> Nodes == old(Nodes)
      ensures ok ==> ts in Nodes && Nodes == old(Nodes)[ts := Nodes[ts]]
      ensures ok ==> (fresh(Nodes[ts]) && Nodes[ts].name == token && Nodes[ts].isDir == isDir
        && Nodes[ts].children == map[] && Nodes[ts].content == None)
    {
      assert Parent(ts) + [token] == ts;
      var node: INode? := if token in dir.children then dir.children[token] else null;
      if node == null || (!node.isDir && !isDir && overwriteFile) {
        node := new INode(token, isDir);
        PutChild(Parent(ts), dir, node);
        return true;
      }
      return false;
    }

    /**
     * create(p, isDir, overwriteFile): walks the strict ancestors of p, making
     * each missing one a new directory and giving up at a file, then places a
     * fresh leaf when it is absent, or a fresh file over an existing file when
     * a file with overwrite is asked for.
     */
    method Create(p: HPath, isDir: bool, overwriteFile: bool) returns (ok: bool)
      requires Valid()
      modifies this, PathOf.Keys
      ensures Valid()
      ensures (Tree, ok) == TreeSpec.Create(old(Tree), Components(p), isDir, overwriteFile)
      ensures forall o {:trigger o in PathOf} | o in PathOf :: o in old(PathOf) || fresh(o)
      ensures forall q | q in old(Nodes) && q != Components(p) :: q in Nodes && Nodes[q] == old(Nodes)[q]
      ensures ok ==> Components(p) in Nodes && var n := Nodes[Components(p)];
        fresh(n) && n.name == Last(Components(p)) && n.isDir == isDir && n.children == map[] && n.content == None
    {
      var tokens := Tokenize(p);
      // Handle the special case of the root directory
      if tokens.Length == 0 {
        return false;
      }
      ok := CreateBelow(tokens, tokens[..], isDir, overwriteFile);
    }

    /** create for a path of at least one component, given as its tokens: the walk, then the leaf step. */
    method CreateBelow(tokens: array<string>, ghost ts: Path, isDir: bool, overwriteFile: bool) returns (ok: bool)
      requires Valid() && tokens[..] == ts && ts != []
      modifies this, PathOf.Keys
      ensures Valid()
      ensures (Tree, ok) == TreeSpec.Create(old(Tree), ts, isDir, overwriteFile)
      ensures forall o {:trigger o in PathOf} | o in PathOf :: o in old(PathOf) || fresh(o)
      ensures forall q | q in old(Nodes) && q != ts :: q in Nodes && Nodes[q] == old(Nodes)[q]
      ensures ok ==> ts in Nodes && var n := Nodes[ts];
        fresh(n) && n.name == Last(ts) && n.isDir == isDir && n.children == map[] && n.content == None
    {
      var tmp := Walk(tokens, ts, isDir, overwriteFile);
      if tmp == null {
        return false;
      }
      assert ts[..|ts| - 1] == Parent(ts);
      TreeSpec.WalkReachesLeaf(old(Tree), ts, isDir, overwriteFile);
      ghost var mid := PathOf;
      ok := PlaceLeaf(ts, tmp, tokens[tokens.Length - 1], isDir, overwriteFile);
      forall o | o in PathOf
        ensures o in old(PathOf) || fresh(o)
      {
        if o !in mid { assert fresh(o); }
      }
    }

    /** Detaching the child named name from a directory, with everything below it, keeps the shape. */
    static lemma LinkedPrune(nodes: map<Path, INode>, kids: map<Path, map<string, INode>>, q: Path, name: string)
      requires Linked(nodes, kids) && q in nodes && nodes[q].isDir
      ensures Linked(TreeSpec.Prune(nodes, q + [name]),
                     TreeSpec.Prune(kids, q + [name])[q := kids[q] - {name}])
    {
      var n := q + [name];
      var nodes' := TreeSpec.Prune(nodes, n);
      var kids' := TreeSpec.Prune(kids, n)[q := kids[q] - {name}];
      forall q1, k {:trigger k in kids'[q1]} | q1 in kids' && k in kids'[q1]
        ensures q1 + [k] in nodes' && nodes'[q1 + [k]] == kids'[q1][k] && kids'[q1][k].name == k
      {
        ExtendInjective(q1, k, q, name);
        PrefixOfExtend(n, q1, k);
      }
      forall q1, k {:trigger q1 + [k]} | q1 + [k] in nodes'
        ensures q1 in kids' && k in kids'[q1]
      {
        ExtendInjective(q1, k, q, name);
        PrefixOfExtend(n, q1, k);
      }
    }

    /** The state change of children.remove(name) on the directory at c.q, with the ghost state pruned to match. */
    static twostate predicate Detached(c: Change)
      requires c.Detach? && c.q in old(c.r.Kids)
      reads c.r, c.dir, c.r.PathOf.Keys
    {
      && c.dir.children == old(c.dir.children) - {c.name} && c.dir.content == old(c.dir.content)
      && c.r.Nodes == TreeSpec.Prune(old(c.r.Nodes), c.q + [c.name])
      && c.r.Kids == TreeSpec.Prune(old(c.r.Kids), c.q + [c.name])[c.q := old(c.r.Kids)[c.q] - {c.name}]
      && c.r.Tree == TreeSpec.Prune(old(c.r.Tree), c.q + [c.name])
      && c.r.PathOf == old(c.r.PathOf)
      && unchanged(old(c.r.PathOf).Keys - {c.dir, c.r})
      && (c.r != c.dir ==> c.r.children == old(c.r.children))
      && c.r.content == old(c.r.content)
    }

    /** Detaching a child from a directory, with the ghost state pruned to match, keeps the tree valid. */
    twostate lemma DetachPreservesValid(c: Change)
      requires c.Detach?
      requires old(c.r.Valid()) && c.q in old(c.r.Nodes) && old(c.r.Nodes[c.q]) == c.dir && c.dir.isDir
      requires c.q in old(c.r.Kids) && Detached(c)
      ensures c.r.Valid()
    {
      LinkedPrune(old(c.r.Nodes), old(c.r.Kids), c.q, c.name);
      forall q1 | q1 in c.r.Nodes
        ensures c.r.Tree[q1] == EntryOf(c.r.Nodes[q1]) && c.r.Nodes[q1].children == c.r.Kids[q1]
        ensures c.r.Nodes[q1] in c.r.PathOf && c.r.PathOf[c.r.Nodes[q1]] == q1
      {
        if q1 != c.q {
          assert q1 in old(c.r.Nodes) && c.r.Nodes[q1] == old(c.r.Nodes[q1]) && old(c.r.Nodes[q1]) != c.dir;
        }
      }
    }

    /** children.remove(name) on the directory at path q: detaches that child and its subtree, if any. */
    method DetachChild(ghost q: Path, dir: INode, name: string)
      requires Valid() && q in Nodes && Nodes[q] == dir && dir.isDir
      modifies this, dir
      ensures Valid()
      ensures dir.children == old(dir.children) - {name}
      ensures Nodes == TreeSpec.Prune(old(Nodes), q + [name])
      ensures Tree == TreeSpec.Prune(old(Tree), q + [name])
      ensures PathOf == old(PathOf)
    {
      ghost var n := q + [name];
      dir.children := dir.children - {name};
      Nodes, Kids, Tree := TreeSpec.Prune(Nodes, n), TreeSpec.Prune(Kids, n)[q := Kids[q] - {name}], TreeSpec.Prune(Tree, n);
      DetachPreservesValid(Detach(this, q, dir, name));
    }

    /** A directory node's children map is empty exactly when nothing lies below its path. */
    lemma NoChildrenIffLeaf(q: Path)
      requires Valid() && q in Nodes
      ensures Nodes[q].children == map[] <==> !TreeSpec.HasChild(Tree, q)
    {
      if k :| k in Nodes[q].children {
        assert k in Kids[q];
      }
    }

    /** children.clear() on the root: only the empty root directory is left. */
    method ClearRoot()
      requires Valid()
      modifies this
      ensures Valid()
      ensures Nodes == map[[] := this] && Tree == map[[] := TreeSpec.Dir]
      ensures PathOf == old(PathOf)
    {
      children := map[];
      Nodes, Kids, Tree := map[[] := this], map[[] := map[]], map[[] := TreeSpec.Dir];
    }

    /**
     * remove(p, recursive): on the root, a recursive remove clears its
     * children; elsewhere the child is detached from its parent directory
     * when it is a file, an empty directory, missing (recursive only), or the
     * remove is recursive.
     */
    method Remove(p: HPath, recursive: bool) returns (ok: bool)
      requires Valid() && TreeSpec.RemoveDefined(Tree, Components(p), recursive)
      modifies this, PathOf.Keys
      ensures Valid()
      ensures (Tree, ok) == TreeSpec.Remove(old(Tree), Components(p), recursive)
      ensures forall q | q in Nodes :: q in old(Nodes) && Nodes[q] == old(Nodes)[q]
      ensures PathOf == old(PathOf)
    {
      var tokens := Tokenize(p);
      // Handle the special case of removing a root directory
      if tokens.Length == 0 {
        if !recursive {
          return false;
        }
        ClearRoot();
        return true;
      }
      ghost var pp := Components(p.parent);
      assert Parent(Components(p)) == pp;
      var parent := Get(p.parent);
      if parent == null || !parent.isDir {
        return false;
      }
      var target := if p.name in parent.children then parent.children[p.name] else null;
      if target != null {
        assert pp + [p.name] in Nodes && Nodes[pp + [p.name]] == target by {
          assert p.name in Kids[pp];
        }
        NoChildrenIffLeaf(Components(p));
      }
      if recursive || !target.isDir || target.children == map[] {
        DetachChild(pp, parent, p.name);
        return true;
      }
      return false;
    }

    /**
     * open(p): the bytes of the file at p, the empty array when its content
     * was never set; None (the Java code's null stream) for a directory or a path
     * that does not resolve.
     */
    method Open(p: HPath) returns (r: Option<TreeSpec.Bytes>)
      requires Valid()
      ensures r == TreeSpec.Open(Tree, Components(p))
    {
      var node := Get(p);
      if node == null || node.isDir {
        return None;
      }
      return Some(if node.content.None? then [] else node.content.value);
    }

    /** Writing a file's content, with its entry in the ghost tree updated to match, keeps the tree valid. */
    twostate lemma ContentPreservesValid(c: Change)
      requires c.Write?
      requires old(c.r.Valid()) && c.q in old(c.r.Nodes) && old(c.r.Nodes[c.q]) == c.node && !c.node.isDir
      requires c.r.Tree == old(c.r.Tree)[c.q := EntryOf(c.node)]
      requires c.r.Nodes == old(c.r.Nodes) && c.r.Kids == old(c.r.Kids) && c.r.PathOf == old(c.r.PathOf)
      requires c.node.children == old(c.node.children) && c.r.children == old(c.r.children)
      requires unchanged(old(c.r.PathOf).Keys - {c.node, c.r})
      ensures c.r.Valid()
    {
      forall q1 | q1 in c.r.Nodes
        ensures c.r.Tree[q1] == EntryOf(c.r.Nodes[q1]) && c.r.Nodes[q1].children == c.r.Kids[q1]
      {
        if q1 != c.q {
          assert c.r.Nodes[q1] != c.node;
        }
      }
    }

    /** setContent(p, bytes): replaces the content of the file at p; does nothing for a directory or a missing path. */
    method SetContent(p: HPath, bytes: Option<TreeSpec.Bytes>)
      requires Valid()
      modifies this, PathOf.Keys
      ensures Valid()
      ensures Tree == TreeSpec.SetContent(old(Tree), Components(p), bytes)
      ensures Nodes == old(Nodes) && PathOf == old(PathOf)
    {
      var node := Get(p);
      if node == null || node.isDir {
        return;
      }
      node.content := bytes;
      Tree := Tree[Components(p) := TreeSpec.File(bytes)];
      ContentPreservesValid(Write(this, Components(p), node));
    }

    /** DEFAULT_CMP: nodes in order of their names under String.compareTo. */
    static function DefaultCmp(left: INode, right: INode): (r: int)
      ensures r == 0 <==> left.name == right.name
      ensures r < 0 <==> LexLess(left.name, right.name)
    {
      CompareToZero(left.name, right.name);
      CompareToIsLexicographic(left.name, right.name);
      CompareTo(left.name, right.name)
    }

    /** s is in DEFAULT_CMP order: no node comes after one it compares above. */
    static ghost predicate SortedByName(s: seq<INode>)
    {
      forall i, j | 0 <= i < j < |s| :: DefaultCmp(s[i], s[j]) <= 0
    }

    /** The first n nodes of s are in DEFAULT_CMP order. */
    static ghost predicate SortedUpTo(s: seq<INode>, n: nat)
      requires n <= |s|
    {
      forall x, y | 0 <= x < y < n :: DefaultCmp(s[x], s[y]) <= 0
    }

    /**
     * Insertion sort while the node that started at i sinks to position j:
     * s[..i + 1] without position j is in order, and s[j] comes before every
     * node after it.
     */
    static ghost predicate Sinking(s: seq<INode>, i: nat, j: nat)
      requires j <= i < |s|
    {
      && (forall x, y | 0 <= x < y <= i && x != j && y != j :: DefaultCmp(s[x], s[y]) <= 0)
      && (forall y | j < y <= i :: DefaultCmp(s[j], s[y]) <= 0)
    }

    /** Swapping the sinking node with a predecessor that compares above it keeps the sort's state, one place lower. */
    static lemma SinkStep(s: seq<INode>, i: nat, j: nat)
      requires 0 < j <= i < |s| && Sinking(s, i, j) && DefaultCmp(s[j - 1], s[j]) > 0
      ensures Sinking(s[j - 1 := s[j]][j := s[j - 1]], i, j - 1)
      ensures multiset(s[j - 1 := s[j]][j := s[j - 1]]) == multiset(s)
    {
      var t := s[j - 1 := s[j]][j := s[j - 1]];
      CompareToAntisymmetric(s[j - 1].name, s[j].name);
      forall x, y | 0 <= x < y <= i && x != j - 1 && y != j - 1
        ensures DefaultCmp(t[x], t[y]) <= 0
      {
        assert t[x] == (if x == j then s[j - 1] else s[x]);
        assert t[y] == (if y == j then s[j - 1] else s[y]);
      }
    }

    /** The sinking node has stopped: below the root of the array or after a node not above it, s[..i + 1] is in order. */
    static lemma SinkDone(s: seq<INode>, i: nat, j: nat)
      requires j <= i < |s| && Sinking(s, i, j) && (j == 0 || DefaultCmp(s[j - 1], s[j]) <= 0)
      ensures SortedUpTo(s, i + 1)
    {
      forall x, y | 0 <= x < y <= i
        ensures DefaultCmp(s[x], s[y]) <= 0
      {
        if y == j && x < j - 1 {
          CompareToTransitive(s[x].name, s[j - 1].name, s[j].name);
        }
      }
    }

    /** Arrays.sort(a, DEFAULT_CMP), as an insertion sort: a is rearranged into name order. */
    static method SortByName(a: array<INode>)
      modifies a
      ensures SortedByName(a[..])
      ensures multiset(a[..]) == multiset(old(a[..]))
    {
      var i := 0;
      while i < a.Length
        invariant 0 <= i <= a.Length
        invariant SortedUpTo(a[..], i)
        invariant multiset(a[..]) == multiset(old(a[..]))
      {
        var j := i;
        while j > 0 && DefaultCmp(a[j - 1], a[j]) > 0
          invariant 0 <= j <= i
          invariant Sinking(a[..], i, j)
          invariant multiset(a[..]) == multiset(old(a[..]))
        {
          SinkStep(a[..], i, j);
          a[j - 1], a[j] := a[j], a[j - 1];
          j := j - 1;
        }
        SinkDone(a[..], i, j);
        i := i + 1;
      }
    }

    /**
     * s is a listing of a directory's children: each child exactly once, in
     * strictly ascending name order (names are distinct, being the keys).
     */
    static ghost predicate IsListing(s: seq<INode>, kids: map<string, INode>)
    {
      && |s| == |kids|
      && (forall i | 0 <= i < |s| :: s[i].name in kids && kids[s[i].name] == s[i])
      && (forall k {:trigger HasName(s, k)} | k in kids :: HasName(s, k))
      && (forall i, j | 0 <= i < j < |s| :: DefaultCmp(s[i], s[j]) < 0)
    }

    /** Some node of s is named k. */
    static ghost predicate HasName(s: seq<INode>, k: string)
    {
      exists i | 0 <= i < |s| :: s[i].name == k
    }

    /** The children copied in any order and then sorted by name form the listing. */
    static lemma SortedCopyIsListing(b: seq<INode>, s: seq<INode>, kids: map<string, INode>)
      requires |b| == |kids| && Distinct(b) && forall k | k in kids :: kids[k].name == k
      requires forall i | 0 <= i < |b| :: b[i].name in kids && kids[b[i].name] == b[i]
      requires forall k | k in kids :: kids[k] in b
      requires multiset(s) == multiset(b) && SortedByName(s)
      ensures IsListing(s, kids)
    {
      DistinctPermutation(b, s);
      forall i | 0 <= i < |s|
        ensures s[i].name in kids && kids[s[i].name] == s[i]
      {
        assert s[i] in multiset(b);
      }
      forall k | k in kids
        ensures HasName(s, k)
      {
        assert kids[k] in multiset(s);
        assert kids[k] in s;
        var i :| 0 <= i < |s| && s[i] == kids[k];
      }
    }

    /**
     * The copy loop of list: the children of a directory, in the unspecified
     * iteration order of the Java HashMap, into a fresh array (whose slots
     * start out as filler, where Java starts them out as null).
     */
    static method CopyChildren(kids: map<string, INode>, filler: INode) returns (res: array<INode>)
      requires forall k | k in kids :: kids[k].name == k
      ensures fresh(res) && res.Length == |kids| && Distinct(res[..])
      ensures forall x | 0 <= x < res.Length :: res[x].name in kids && kids[res[x].name] == res[x]
      ensures forall k | k in kids :: kids[k] in res[..]
    {
      res := new INode[|kids|](_ => filler);
      var i := 0;
      var rest := kids.Keys;
      while rest != {}
        invariant rest <= kids.Keys && i + |rest| == res.Length
        invariant forall x | 0 <= x < i :: res[x].name in kids && kids[res[x].name] == res[x] && res[x].name !in rest
        invariant forall k | k in kids && k !in rest :: kids[k] in res[..i]
        invariant Distinct(res[..i])
      {
        var k :| k in rest;
        ghost var before := res[..i];
        res[i] := kids[k];
        assert res[..i + 1] == before + [kids[k]];
        rest := rest - {k};
        i := i + 1;
      }
      assert res[..] == res[..i];
    }

    /**
     * Two listings of the same children are the same sequence: what list
     * returns does not depend on the order the HashMap yields its values in.
     */
    static lemma ListingUnique(s1: seq<INode>, s2: seq<INode>, kids: map<string, INode>)
      requires IsListing(s1, kids) && IsListing(s2, kids)
      ensures s1 == s2
    {
      ListingsAgree(s1, s2, kids, |s1|);
    }

    /** Two listings of the same children agree on their first n places. */
    static lemma {:induction false} ListingsAgree(s1: seq<INode>, s2: seq<INode>, kids: map<string, INode>, n: nat)
      requires IsListing(s1, kids) && IsListing(s2, kids) && n <= |s1|
      ensures s1[..n] == s2[..n]
    {
      if n > 0 {
        ListingsAgree(s1, s2, kids, n - 1);
        var i := n - 1;
        var a, b := s1[i], s2[i];
        if a != b {
          // a sits after place i in s2 and b after place i in s1, so each name is below the other
          var j := ListingPlace(s2, kids, a.name);
          var m := ListingPlace(s1, kids, b.name);
          assert forall x | 0 <= x < i :: s1[x] == s1[..i][x] == s2[..i][x] == s2[x];
          ListingNamesDistinct(s1, kids, j, i);
          ListingNamesDistinct(s2, kids, m, i);
          ListingOrdered(s2, kids, i, j);
          ListingOrdered(s1, kids, i, m);
          CompareToAntisymmetric(a.name, b.name);
        }
        assert s1[..n] == s1[..i] + [a] && s2[..n] == s2[..i] + [b];
      }
    }

    /** The place of the child named k in a listing of the children. */
    static lemma ListingPlace(s: seq<INode>, kids: map<string, INode>, k: string) returns (j: nat)
      requires IsListing(s, kids) && k in kids
      ensures j < |s| && s[j] == kids[k]
    {
      assert HasName(s, k);
      j :| 0 <= j < |s| && s[j].name == k;
    }

    /** No two places of a listing hold the same name. */
    static lemma ListingNamesDistinct(s: seq<INode>, kids: map<string, INode>, x: nat, y: nat)
      requires IsListing(s, kids) && x < |s| && y < |s|
      ensures s[x].name == s[y].name ==> x == y
    {
      if x < y {
        assert DefaultCmp(s[x], s[y]) < 0;
      } else if y < x {
        assert DefaultCmp(s[y], s[x]) < 0;
      }
    }

    /** A listing is in strictly ascending name order. */
    static lemma ListingOrdered(s: seq<INode>, kids: map<string, INode>, x: nat, y: nat)
      requires IsListing(s, kids) && x < y < |s|
      ensures CompareTo(s[x].name, s[y].name) < 0
    {
      assert DefaultCmp(s[x], s[y]) < 0;
    }

    /** The names list gives for the directory at q are exactly the names of the paths one level below q. */
    lemma ListingNamesChildren(q: Path, s: seq<INode>)
      requires Valid() && q in Nodes && IsListing(s, Nodes[q].children)
      ensures forall i | 0 <= i < |s| :: q + [s[i].name] in Tree && Tree[q + [s[i].name]] == EntryOf(s[i])
      ensures forall k | q + [k] in Tree :: HasName(s, k)
    {
      forall i | 0 <= i < |s|
        ensures q + [s[i].name] in Tree && Tree[q + [s[i].name]] == EntryOf(s[i])
      {
        assert s[i].name in Kids[q];
      }
      forall k | q + [k] in Tree
        ensures HasName(s, k)
      {
        assert k in Kids[q];
      }
    }

    /**
     * list(p): null when p does not resolve; the file itself for a file; for a
     * directory a fresh array of its children sorted by name.
     */
    method List(p: HPath) returns (res: array?<INode>)
      requires Valid()
      ensures res == null <==> Components(p) !in Nodes
      ensures res != null ==> fresh(res)
      ensures res != null && Nodes[Components(p)].isDir ==> IsListing(res[..], Nodes[Components(p)].children)
      ensures res != null && !Nodes[Components(p)].isDir ==> res[..] == [Nodes[Components(p)]]
    {
      var node := Get(p);
      if node == null {
        return null;
      }
      if node.isDir {
        res := CopyChildren(node.children, node);
        ghost var copied := res[..];
        SortByName(res);
        SortedCopyIsListing(copied, res[..], node.children);
        return res;
      }
      return new INode[] [node];
    }
  }

  /**
   * One in-place change below the root r, described for the lemmas that show
   * it keeps the tree valid: child put under the directory dir at path q,
   * the child named name removed from it, or the content of the file node at
   * path q written.
   */
  datatype Change =
    | Attach(r: INode, q: Path, dir: INode, child: INode)
    | Detach(r: INode, q: Path, dir: INode, name: string)
    | Write(r: INode, q: Path, node: INode)

  /** No element occurs twice in s. */
  ghost predicate Distinct<T>(s: seq<T>)
  {
    forall i, j | 0 <= i < j < |s| :: s[i] != s[j]
  }

  /** In a sequence without repetitions every element occurs at most once. */
  lemma {:induction false} DistinctOccursOnce<T>(s: seq<T>, x: T)
    requires Distinct(s)
    ensures multiset(s)[x] <= 1
  {
    if s != [] {
      assert s == [s[0]] + s[1..];
      assert Distinct(s[1..]);
      DistinctOccursOnce(s[1..], x);
      assert s[0] !in s[1..];
    }
  }

  /** A rearrangement of a sequence without repetitions has none either. */
  lemma DistinctPermutation<T>(a: seq<T>, b: seq<T>)
    requires Distinct(a) && multiset(a) == multiset(b)
    ensures Distinct(b)
  {
    forall i, j | 0 <= i < j < |b|
      ensures b[i] != b[j]
    {
      if b[i] == b[j] {
        assert b == b[..i] + [b[i]] + b[i + 1..j] + [b[j]] + b[j + 1..];
        assert multiset(b)[b[i]] >= 2;
        DistinctOccursOnce(a, b[i]);
      }
    }
  }
}
