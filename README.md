# In-memory namespace tree of hadoop-in-memory-fs, in Dafny

This project models `INode`, the namespace tree behind the in-memory Hadoop
file system. A node is a directory or a file. A directory owns a map from
child name to child node. A file owns a byte content that may still be unset
(null). The root is a directory named `"root"`. Every operation takes an
absolute Hadoop path, reduces it to its components ("tokenize"), and walks
the tree from the root.

The model is imperative, like the Java class:

- `Namespace.INode` is a class with the same state:
  - `name` and `isDir` are constants. In Java, `isDir()` is `children != null`, and `children` is final.
  - `children` is a `map<string, INode>` that the methods reassign where Java calls `put`, `remove` or `clear`.
  - `content` is an `Option` of bytes, where `None` stands for Java's null.
- `get`, `tokenize`, `create` and the copy in `list` are `while`/`for` loops with their invariants.
- `list` sorts its array in place.

Each root node carries ghost state that ties the heap to an abstract value:

- `Nodes` maps each reachable path to its node;
- `Kids` records each path's children map;
- `PathOf` is the inverse of `Nodes`;
- `Tree` is the namespace as a value (`TreeSpec.Tree`, a `map<Path, Entry>` with `Entry = Dir | File(content)`).

`Valid()` is the invariant that ties these together:

- the root sits at `[]` and is a directory;
- each child's key equals its `name`;
- a file has no children;
- every path in `Nodes` is its parent's path plus one child name;
- the abstract tree is exactly the nodes' kinds and contents.

Every state-changing method keeps `Valid()`. It states its effect as the abstract function of the old tree (`TreeSpec.Create`, `TreeSpec.Remove`, `TreeSpec.SetContent`). The properties of each operation are proved as lemmas about those functions in `TreeSpec`.

Files:

- `options.dfy`: `Option`.
- `paths.dfy`: paths as component sequences. The Hadoop path is `HPath`, the root or a named child of another path.
- `string_order.dfy`: Java's `String.compareTo` and its order laws.
- `tree_spec.dfy`: the abstract tree and its operations, with their lemmas.
- `inode.dfy`: the class.

Behaviours of the code that a reader might not expect:

- `create` of an existing directory, and of the root path, returns false (INode.java:95, 99-104).
- An overwrite installs a fresh file node whose content is unset. `open` on it yields the empty array (INode.java:99-101, 134).
- `remove` of the root path: non-recursive returns false and changes nothing; recursive clears the root's children and returns true (INode.java:112-116).
- `remove` whose parent is missing or is a file returns false and changes nothing (INode.java:118-120).
- `remove` of a missing child of an existing directory: recursive returns true and changes nothing (INode.java:121-124). Non-recursive, it dereferences null (INode.java:122), so `Remove` requires that case away through `TreeSpec.RemoveDefined`.
- `open` of a directory or of a missing path returns null, not an error (INode.java:133).

## Model

| member | source | states |
|---|---|---|
| Namespace.INode.constructor | src/main/java/com/github/sadikovi/INode.java:28-31 | a new node has the given name and kind, no children and unset content; it is the root of a one-entry tree |
| Namespace.INode.Root | src/main/java/com/github/sadikovi/INode.java:34-36 | root() gives a fresh valid directory named "root" whose tree holds only the root directory, with a frame of fresh objects only |
| Namespace.INode.TreeWellFormed | src/main/java/com/github/sadikovi/INode.java:14-15 | in a valid tree every non-root path's parent is present and is a directory (files have no children) |
| Namespace.INode.AncestorIsDir | src/main/java/com/github/sadikovi/INode.java:53-56 | every strict ancestor of a node's path holds a directory node, so a walk to a present node only passes directories |
| Namespace.INode.Tokenize | src/main/java/com/github/sadikovi/INode.java:146-154 | tokenize returns depth(p) tokens, the components of p in root-to-leaf order |
| Paths.ComponentsLength | src/main/java/com/github/sadikovi/INode.java:148 | a path has exactly depth(p) components |
| Paths.FromComponentsOfComponents | src/main/java/com/github/sadikovi/INode.java:146-154 | the tokens determine the path: rebuilding a path from its tokens gives it back |
| Paths.ComponentsOfFromComponents | src/main/java/com/github/sadikovi/INode.java:146-154 | every token sequence is the tokenization of some absolute path |
| Namespace.INode.Get | src/main/java/com/github/sadikovi/INode.java:49-58 | get returns non-null exactly when the path is in the tree, and then the node at that path; get of "/" returns the node itself |
| TreeSpec.AncestorsPresent | src/main/java/com/github/sadikovi/INode.java:53-56 | in a well-formed tree every prefix of a present path is present, and every strict prefix is a directory |
| Namespace.INode.DefaultCmp | src/main/java/com/github/sadikovi/INode.java:20-25 | DEFAULT_CMP is zero exactly for equal names and negative exactly when the left name is lexicographically smaller |
| StringOrder.CompareToZero | src/main/java/com/github/sadikovi/INode.java:23 | compareTo is zero exactly on equal strings |
| StringOrder.CompareToAntisymmetric | src/main/java/com/github/sadikovi/INode.java:23 | swapping the operands of compareTo negates it |
| StringOrder.CompareToTransitive | src/main/java/com/github/sadikovi/INode.java:23 | compareTo's non-positive results chain transitively |
| StringOrder.CompareToIsLexicographic | src/main/java/com/github/sadikovi/INode.java:23 | compareTo is negative exactly when the first string is a proper prefix of the second or is smaller at the first difference |
| Namespace.INode.CopyChildren | src/main/java/com/github/sadikovi/INode.java:66-70 | the copy loop yields a fresh array of children.size() slots holding each child exactly once, in any order |
| Namespace.INode.SinkStep | src/main/java/com/github/sadikovi/INode.java:72 | one swap of the in-place sort moves the sinking element one place down, keeps every other pair in order and keeps the multiset of elements |
| Namespace.INode.SinkDone | src/main/java/com/github/sadikovi/INode.java:72 | once the sinking element meets a smaller or equal neighbour, one more element is sorted |
| Namespace.INode.SortByName | src/main/java/com/github/sadikovi/INode.java:72 | Arrays.sort with DEFAULT_CMP leaves the array ascending by name and a permutation of its old contents |
| Namespace.INode.SortedCopyIsListing | src/main/java/com/github/sadikovi/INode.java:66-73 | sorting a copy of the children gives each child once, keyed by its name, in strictly ascending name order |
| Namespace.INode.ListingsAgree | src/main/java/com/github/sadikovi/INode.java:66-73 | two listings of the same children agree on every prefix |
| Namespace.INode.ListingPlace | src/main/java/com/github/sadikovi/INode.java:66-73 | every child has a place in a listing of its directory |
| Namespace.INode.ListingNamesDistinct | src/main/java/com/github/sadikovi/INode.java:66-73 | no name occurs at two places of a listing |
| Namespace.INode.ListingOrdered | src/main/java/com/github/sadikovi/INode.java:72 | a listing's names are strictly ascending under compareTo |
| Namespace.INode.ListingUnique | src/main/java/com/github/sadikovi/INode.java:66-73 | there is only one listing of a directory, so what list returns does not depend on HashMap iteration order |
| Namespace.INode.ListingNamesChildren | src/main/java/com/github/sadikovi/INode.java:61-78 | the names in a directory's listing are exactly the paths one level below it in the tree, each with its entry |
| Namespace.INode.List | src/main/java/com/github/sadikovi/INode.java:61-78 | list returns null exactly when the path is missing, the sorted listing of the children for a directory, the one-element array of the node for a file; it changes nothing |
| Namespace.INode.LinkedPut | src/main/java/com/github/sadikovi/INode.java:89 | putting a childless node under a directory, in place of nothing or of a file, keeps names equal to keys and every path one child step from its parent |
| Namespace.INode.PutPreservesValid | src/main/java/com/github/sadikovi/INode.java:101 | attaching a childless node under a directory, with the ghost state updated to match, keeps the tree valid |
| Namespace.INode.PutChild | src/main/java/com/github/sadikovi/INode.java:89 | children.put adds exactly the one path below the directory to the tree, with the new node's entry, and keeps the tree valid |
| Namespace.INode.MakeDir | src/main/java/com/github/sadikovi/INode.java:87-90 | a missing intermediate becomes a fresh directory, which is what the abstract create adds at that depth |
| Namespace.INode.StepDown | src/main/java/com/github/sadikovi/INode.java:86-92 | one iteration of the walk either moves to the next directory, having added what the abstract create adds, or stops at a file with create's final tree and false |
| Namespace.INode.Walk | src/main/java/com/github/sadikovi/INode.java:85-93 | the walk over the strict ancestors ends at the directory that is to hold the leaf, or at a file with the outcome of create, keeping every old node at its path |
| Namespace.INode.PlaceLeaf | src/main/java/com/github/sadikovi/INode.java:97-104 | the leaf step adds a fresh node of the requested kind when the leaf is absent, or a fresh empty file over a file with overwrite; otherwise it changes nothing and returns false |
| Namespace.INode.CreateBelow | src/main/java/com/github/sadikovi/INode.java:83-104 | for a non-root path, the walk and the leaf step together do what the abstract create says |
| Namespace.INode.Create | src/main/java/com/github/sadikovi/INode.java:81-105 | create leaves exactly the abstract create's tree and result, keeps every other node, and on success the node at p is fresh, named after the last token, of the asked kind, empty and with unset content |
| TreeSpec.MissingHasNoDescendants | src/main/java/com/github/sadikovi/INode.java:87-90 | in a well-formed tree nothing lies below a missing path, so a directory create makes is empty |
| TreeSpec.NoMissingDirsWhenBlockedOrPresent | src/main/java/com/github/sadikovi/INode.java:85-93 | when create meets a file, or the leaf already exists, the walk has created no directory: every ancestor was already there |
| TreeSpec.MissingDirsStepKeys | src/main/java/com/github/sadikovi/INode.java:85-93 | one more level of the walk adds at most the prefix at that level, and only when it is missing and no file lies above |
| TreeSpec.MissingDirsStep | src/main/java/com/github/sadikovi/INode.java:85-93 | one more level of the walk adds that prefix as a directory when it is missing and nothing otherwise |
| TreeSpec.MissingDirsStopAtFile | src/main/java/com/github/sadikovi/INode.java:91 | below the first file on the way, the walk creates nothing more |
| TreeSpec.WalkCreatesMissing | src/main/java/com/github/sadikovi/INode.java:87-90 | making a missing intermediate a directory is the abstract walk's next step, and still no file lies above |
| TreeSpec.WalkPassesDir | src/main/java/com/github/sadikovi/INode.java:91-92 | passing an existing directory adds nothing, and still no file lies above |
| TreeSpec.WalkMeetsFile | src/main/java/com/github/sadikovi/INode.java:91 | meeting a file on the way ends create with false and the directories made so far |
| TreeSpec.WalkReachesLeaf | src/main/java/com/github/sadikovi/INode.java:94-104 | when no file lies above the leaf, create is the leaf step on the tree the walk left |
| TreeSpec.CreatePreservesWellFormed | src/main/java/com/github/sadikovi/INode.java:81-105 | create keeps the tree well formed |
| TreeSpec.CreateNewLeaf | src/main/java/com/github/sadikovi/INode.java:97-102 | with the leaf absent and no file on the way, create succeeds with an empty node of the asked kind at p, all ancestors directories, the old tree kept and nothing added off the path |
| TreeSpec.CreateExistingDirFails | src/main/java/com/github/sadikovi/INode.java:98-104 | create of an existing directory returns false and changes nothing (not idempotent) |
| TreeSpec.CreateExistingFile | src/main/java/com/github/sadikovi/INode.java:98-104 | create over an existing file succeeds exactly for a file with overwrite, replacing it with a file whose open yields the empty array; otherwise nothing changes |
| TreeSpec.CreateBlockedChangesNothing | src/main/java/com/github/sadikovi/INode.java:91 | create below a file returns false and changes nothing |
| Namespace.INode.LinkedPrune | src/main/java/com/github/sadikovi/INode.java:123 | removing one key from a directory and dropping everything below it keeps names equal to keys and every path one child step from its parent |
| Namespace.INode.DetachPreservesValid | src/main/java/com/github/sadikovi/INode.java:123 | removing one child from a directory, with the ghost state pruned to match, keeps the tree valid |
| Namespace.INode.DetachChild | src/main/java/com/github/sadikovi/INode.java:123 | children.remove deletes only that key from the parent's map and removes exactly that subtree from the tree |
| Namespace.INode.NoChildrenIffLeaf | src/main/java/com/github/sadikovi/INode.java:122 | a node's children map is empty exactly when nothing lies below its path |
| Namespace.INode.ClearRoot | src/main/java/com/github/sadikovi/INode.java:112-116 | children.clear on the root leaves the root directory alone in the tree |
| Namespace.INode.Remove | src/main/java/com/github/sadikovi/INode.java:108-127 | remove leaves exactly the abstract remove's tree and result, and every remaining node is the old node at its path |
| TreeSpec.RemovePreservesWellFormed | src/main/java/com/github/sadikovi/INode.java:108-127 | remove keeps the tree well formed |
| TreeSpec.RemoveDetachesSubtree | src/main/java/com/github/sadikovi/INode.java:118-126 | a successful remove of a non-root path drops exactly the path and everything below it and keeps every other entry; a failed one changes nothing |
| TreeSpec.RemoveMissingRecursive | src/main/java/com/github/sadikovi/INode.java:121-124 | a recursive remove of a missing child of a directory returns true and changes nothing |
| TreeSpec.RemoveExisting | src/main/java/com/github/sadikovi/INode.java:122-126 | a non-recursive remove of a present path fails exactly for a directory with children; a recursive one succeeds |
| TreeSpec.RemoveRoot | src/main/java/com/github/sadikovi/INode.java:112-116 | a non-recursive remove of the root changes nothing and returns false; a recursive one returns true and leaves only the root |
| Namespace.INode.Open | src/main/java/com/github/sadikovi/INode.java:130-135 | open returns the file's bytes, the empty array when unset, and nothing for a directory or a missing path |
| Namespace.INode.ContentPreservesValid | src/main/java/com/github/sadikovi/INode.java:142 | writing a file's content, with its tree entry updated to match, keeps the tree valid |
| Namespace.INode.SetContent | src/main/java/com/github/sadikovi/INode.java:138-143 | setContent changes only the content of the file at p, and nothing for a directory or a missing path; no node is added or removed |
| TreeSpec.SetContentThenOpen | src/main/java/com/github/sadikovi/INode.java:130-143 | after setContent, open of that path gives the new bytes (the empty array for null) when it is a file; nothing else changes, and nothing at all for a directory or a missing path |

## Left out

- assertValidPath (INode.java:157-160): a path is an `HPath` value, always absolute and never null, so its assertion errors cannot arise.
- Hadoop `Path` internals: only `depth`, `getName` and `getParent` are modelled, as the structure of `HPath`. Names are not checked for being non-empty or free of "/", as the Java code does not check them either.
- Namespace.INode.Remove: a non-recursive remove whose parent directory exists but has no child of that name dereferences null at INode.java:122. The model makes this case a precondition (`TreeSpec.RemoveDefined`) instead of modelling the exception.
- Namespace.INode.Open: returns the bytes instead of a `ByteArrayInputStream` over them. Streams are not modelled.
- Namespace.INode.SetContent: stores the bytes as a value. The Java code keeps the caller's array reference, so later writes to that array through the caller are not modelled.
- Namespace.INode.DefaultCmp: compares Dafny characters, where Java compares UTF-16 code units. The orders differ for strings with characters outside the Basic Multilingual Plane.
- Namespace.INode.SortByName: an insertion sort stands in for `Arrays.sort`. The result is the same, because names in one directory are distinct. The library's algorithm and its stability are not modelled.
- Namespace.INode.CopyChildren: HashMap iteration order is unspecified, so the copy picks keys in an arbitrary order. `ListingUnique` shows that the sorted result does not depend on it.
- Namespace.INode.CopyChildren: the array's slots start out as a filler node instead of null, since Dafny arrays of non-null references need an initial value. Every slot is overwritten before the array is returned.
- `getName` and `isDir` (INode.java:39-46) are read as the fields `name` and `isDir`.
- `toString` (INode.java:162-165): debug text only.
- Detached nodes stay in the ghost `PathOf` map. This only widens the frame the methods may modify, and nothing is claimed about detached subtrees.
- InMemoryFileSystem.java is not part of this model. It also calls `INode` methods that do not exist in INode.java (`createFile`, `rename`, `getContent`, `getContentLength`, `getModificationTime`, one-argument `create`). Renames, modification times, sizes and locking are therefore not modelled.
- Concurrency: the class has no synchronisation, and the model is sequential.
