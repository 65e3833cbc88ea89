/** A tree in which a node's path leads to another node. */
module VfsFault {
  import opened Options
  import opened TreeModel
  import opened VfsModel
  import opened Vfs
  import Paths

  lemma LoneNode(h: Heap<VfsNode>, kids: Kids, rank: map<nat, nat>, n: nat)
    requires Linked(h, kids) && Ranked(h, rank) && h.Keys == {n}
    ensures n in kids && kids[n] == []
  {
    assert KidsOf(h, kids[n], n) && BelowParent(h, rank, n);
  }

  lemma TokensOfA()
    ensures Paths.Take(Paths.Tokens("/a/"), Paths.MAX_TOKENS) == ["/", "a"]
  {
    assert "/a/"[1..] == "a" + "/" + "";
    Paths.SegmentsConcat("a", "");
    Paths.SegmentsOfWord("a");
    Paths.SegmentsOfNothing();
  }

  /** The path of the second of two children of the root that are called `a` leads to the first. */
  lemma SecondHidden(h: Heap<VfsNode>, kids: Kids, root: nat, a: nat, b: nat)
    requires KidsIn(h, kids) && root in h && kids[root] == [a, b] && a in h && h[a].data.name == "a"
    ensures VfsModel.GetNode(h, kids, Some(root), "/a/") == Some(a)
  {
    TokensOfA();
    assert ["/", "a"][1..] == ["a"] && ["a"][1..] == [];
    assert kids[root][0] in h;
    assert FirstNamed(h, kids[root], 0, "a") == Some(a);
  }

  /**
   A file and then a directory of the same name are added below the root: the path of the directory leads to
   the file.
   */
  method ShadowedSibling(dirNum: nat, fileNum: nat) returns (t: FileTree, found: Option<nat>, ghost dir: nat)
    ensures t.Valid() && dir in t.tree.nodes && t.tree.nodes[dir].data.path == "/a/" && t.tree.nodes[dir].data.isDir
    ensures KidsIn(t.tree.nodes, t.tree.kids)
    ensures found == VfsModel.GetNode(t.tree.nodes, t.tree.kids, t.root, t.tree.nodes[dir].data.path)
    ensures found.Some? && found.value in t.tree.nodes && found != Some(dir) && !t.tree.nodes[found.value].data.isDir
  {
    hide Linked;
    hide Ranked;
    hide PathsOk;
    hide OneRoot;
    hide KidsIn;
    hide VfsModel.GetNode;
    hide FirstNamed;
    hide Resolve;
    t := new FileTree();
    var root := t.Init(None, false);
    LoneNode(t.tree.nodes, t.tree.kids, t.tree.rank, root);
    var added;
    ghost var known, file;
    added, known, file := t.AddNode(Some(root), "a", fileNum, Some(Inode(false)), true);
    assert t.tree.kids[root] == [file] && t.tree.nodes[file].data.path == "/a" + "" == "/a";
    added, known, dir := t.AddNode(Some(root), "a", dirNum, Some(Inode(true)), true);
    assert known == None;
    found := t.GetNode("/a/");
    assert "/a" + "/" == "/a/";
    SecondHidden(t.tree.nodes, t.tree.kids, root, file, dir);
  }
}
