/** The virtual file system as it grows its tree in place. */
module Vfs {
  import opened Options
  import opened TreeModel
  import opened TreeProofs
  import opened VfsModel
  import Paths
  import Tree

  class FileTree {
    const tree: Tree.SiblingTree<VfsNode>
    var root: Option<nat>

    /** There is one tree, and every path fits. */
    ghost predicate Valid()
      reads this, tree
    {
      tree.Valid() && PathsOk(tree.nodes) && OneRoot(tree.nodes, root)
    }

    constructor ()
      ensures Valid() && root == None && fresh(tree)
    {
      tree := new Tree.SiblingTree<VfsNode>();
      root := None;
    }

    /** `init`: a root directory takes the place of everything there was. */
    method Init(inode: Option<Inode>, mounted: bool) returns (n: nat)
      requires Valid()
      modifies this, tree
      ensures Valid() && root == Some(n) && tree.nodes.Keys == {n}
      ensures tree.nodes[n].data == VfsNode("/", "/", true, ROOT_INO, inode, mounted)
    {
      ghost var h, kids, rank := tree.nodes, tree.kids, tree.rank;
      n := tree.Create(VfsNode("/", "/", true, ROOT_INO, inode, mounted));
      OldTreeGone(h, kids, rank, root, n, tree.nodes, tree.kids, tree.rank);
      hide Linked;
      hide Ranked;
      hide Below;
      if root.Some? && root.value != n {
        ghost var gone := tree.DeleteSubtree(root.value);
      }
      root := Some(n);
    }

    /**
     `add_node`: nothing for a parent that is missing or no directory or for an empty name; a child that is already
     there for a mounted node with an inode; otherwise a new last child `n`.
     */
    method AddNode(parent: Option<nat>, name: string, inodeNum: nat, inode: Option<Inode>, mounted: bool)
      returns (added: Option<VfsNode>, ghost known: Option<nat>, ghost n: nat)
      requires Valid() && (parent.Some? ==> parent.value in tree.nodes)
      modifies tree
      ensures added.None? <==> name == "" || parent.None? || !old(tree.nodes)[parent.value].data.isDir
      ensures added.None? ==> tree.nodes == old(tree.nodes) && tree.kids == old(tree.kids) && Valid()
      ensures added.Some? ==>
                var path := NewPath(old(tree.nodes)[parent.value].data, name, inode);
                FirstChild(old(tree.nodes), old(tree.kids), parent.value, (d: VfsNode) => d.path == path, known)
      ensures added.Some? && Reused(old(tree.nodes), known, inode, mounted) ==>
                && tree.nodes == old(tree.nodes)[known.value := old(tree.nodes)[known.value].(data := added.value)]
                && added.value == Completed(old(tree.nodes)[known.value].data, inode.value)
                && tree.kids == old(tree.kids) && Valid()
      ensures added.Some? && !Reused(old(tree.nodes), known, inode, mounted) ==>
                && n !in old(tree.nodes) && tree.nodes.Keys == old(tree.nodes).Keys + {n}
                && tree.nodes[n].data == added.value && tree.nodes[n].parent == parent
                && (forall m :: m in old(tree.nodes) ==> tree.nodes[m].data == old(tree.nodes)[m].data
                                                         && tree.nodes[m].parent == old(tree.nodes)[m].parent)
                && added.value == NewNode(old(tree.nodes)[parent.value].data, name, inodeNum, inode, mounted)
                && tree.kids == old(tree.kids)[n := []][parent.value := old(tree.kids)[parent.value] + [n]]
                && (Valid() <==> '/' !in name && (inode.Some? && !mounted ==> inode.value.isDir))
    {
      added, known, n := None, None, 0;
      if name == "" || parent.None? { return; }
      var p := parent.value;
      if !tree.nodes[p].data.isDir { return; }
      var path := tree.nodes[p].data.path + name;
      if inode.None? || inode.value.isDir { path := path + "/"; }
      var child := tree.FindChild(p, (d: VfsNode) => d.path == path);
      known := child;
      if inode.None? || !mounted {
        added, n := Insert(p, VfsNode(name, path, true, BAD_INO, None, false));
        return;
      }
      if child.Some? && tree.nodes[child.value].data.isDir == inode.value.isDir {
        CompletedPathsOk(tree.nodes, child.value, inode.value);
        var d := Completed(tree.nodes[child.value].data, inode.value);
        tree.SetData(child.value, d);
        added := Some(d);
        return;
      }
      added, n := Insert(p, VfsNode(name, path, inode.value.isDir, inodeNum, inode, mounted));
    }

    /** The end of `add_node`: a new node becomes the last child of `p`. */
    method Insert(p: nat, data: VfsNode) returns (added: Option<VfsNode>, n: nat)
      requires Valid() && p in tree.nodes
      modifies tree
      ensures added == Some(data) && n !in old(tree.nodes) && tree.nodes.Keys == old(tree.nodes).Keys + {n}
      ensures tree.nodes[n].data == data && tree.nodes[n].parent == Some(p)
      ensures forall m :: m in old(tree.nodes) ==>
              tree.nodes[m].data == old(tree.nodes)[m].data && tree.nodes[m].parent == old(tree.nodes)[m].parent
      ensures p in old(tree.kids) && tree.kids == old(tree.kids)[n := []][p := old(tree.kids)[p] + [n]]
      ensures Valid() <==> PathOk(tree.nodes, n)
    {
      n := tree.Create(data);
      added := Some(data);
      NothingBelow(tree.nodes, tree.kids, tree.rank, n, p);
      tree.AddChild(p, n);
      AddedPathsOk(old(tree.nodes), tree.nodes, n, p);
    }

    /** `get_node`. */
    method GetNode(path: string) returns (n: Option<nat>)
      requires Valid()
      ensures KidsIn(tree.nodes, tree.kids) && n == VfsModel.GetNode(tree.nodes, tree.kids, root, path)
    {
      LinkedKidsIn(tree.nodes, tree.kids);
      if path == "" { return None; }
      var split := Paths.SplitPathTokens(path);
      var tokens := split.value;
      if tokens == [] || tokens[0] != "/" { return None; }
      if root.None? { return None; }
      hide Linked;
      hide Ranked;
      hide PathsOk;
      hide KidsIn;
      var curr := root.value;
      var i := 1;
      while i < |tokens|
        invariant 1 <= i <= |tokens| && curr in tree.nodes
        invariant Resolve(tree.nodes, tree.kids, curr, tokens[i..])
               == Resolve(tree.nodes, tree.kids, root.value, tokens[1..])
      {
        assert tokens[i..][0] == tokens[i] && tokens[i..][1..] == tokens[i + 1..];
        var nameToFind := tokens[i];
        var child := tree.FindChild(curr, (d: VfsNode) => d.name == nameToFind);
        FirstChildNamed(tree.nodes, tree.kids, curr, nameToFind, child, 0);
        if child.None? { return None; }
        curr := child.value;
        i := i + 1;
      }
      assert tokens[i..] == [];
      return Some(curr);
    }
  }

  /**
   Adding an entry of a mounted file system twice adds at most one node: the second call finds the node of the first,
   which keeps the inode that it has.
   */
  method AddTwice(t: FileTree, p: nat, name: string, inodeNum: nat, inode: Inode, inodeNum': nat)
    returns (first: Option<VfsNode>, second: Option<VfsNode>, ghost n: nat)
    requires t.Valid() && p in t.tree.nodes && t.tree.nodes[p].data.isDir && name != "" && '/' !in name
    modifies t.tree
    ensures t.Valid() && n in t.tree.nodes && t.tree.nodes[n].parent == Some(p)
    ensures first.Some? && second == first == Some(t.tree.nodes[n].data)
    ensures first.value.name == name && first.value.isDir == inode.isDir && first.value.mounted
    ensures old(t.tree.nodes).Keys <= t.tree.nodes.Keys <= old(t.tree.nodes).Keys + {n}
    ensures n !in old(t.tree.nodes) ==> first.value.inodeNum == inodeNum && first.value.inode == Some(inode)
  {
    hide Linked;
    hide Ranked;
    hide PathsOk;
    hide OneRoot;
    hide FirstChild;
    hide NewPath;
    ghost var h, kids := t.tree.nodes, t.tree.kids;
    ghost var path := NewPath(h[p].data, name, Some(inode));
    ghost var known, added, again, unused;
    first, known, added := t.AddNode(Some(p), name, inodeNum, Some(inode), true);
    n := added;
    if known.Some? {
      n := known.value;
      FoundBelow(h, kids, p, path, n);
      SamePathReused(h, kids, p, n, name, inode);
      CompletedKeeps(h[n].data, inode);
    }
    assert NewPath(t.tree.nodes[p].data, name, Some(inode)) == path by {
      SameNewPath(h[p].data, t.tree.nodes[p].data, name, inode);
    }
    ghost var h1, kids1 := t.tree.nodes, t.tree.kids;
    second, again, unused := t.AddNode(Some(p), name, inodeNum', Some(inode), true);
    if known.Some? {
      FoundAgain(h, kids, p, path, n, inode, again);
    } else {
      NewFound(h, kids, p, path, n, h1, kids1, again);
    }
    CompletedKeeps(h1[n].data, inode);
    assert h1[n := h1[n].(data := h1[n].data)] == h1;
  }
}
