/** The virtual file system's tree: how paths are built and how they are looked up (src/kernel/fs/ext/vfs.cpp). */
module VfsModel {
  import opened Options
  import opened TreeModel
  import opened TreeProofs
  import Paths

  datatype Inode = Inode(isDir: bool)

  /** A node's data; `mounted` says whether it belongs to a file system. */
  datatype VfsNode = VfsNode(name: string, path: string, isDir: bool, inodeNum: nat, inode: Option<Inode>,
      mounted: bool)

  const BAD_INO: nat := 1
  const ROOT_INO: nat := 2

  /** The path that `add_node` builds. */
  function NewPath(parent: VfsNode, name: string, inode: Option<Inode>): string
  {
    parent.path + name + if inode.None? || inode.value.isDir then "/" else ""
  }

  /** Whether `add_node` makes do with the child it finds under the path. */
  predicate Reused(h: Heap<VfsNode>, child: Option<nat>, inode: Option<Inode>, mounted: bool)
  {
    inode.Some? && mounted && child.Some? && child.value in h && h[child.value].data.isDir == inode.value.isDir
  }

  /** The data of a new node with this name below `parent`. */
  function NewNode(parent: VfsNode, name: string, inodeNum: nat, inode: Option<Inode>, mounted: bool): VfsNode
  {
    var path := NewPath(parent, name, inode);
    if inode.None? || !mounted then VfsNode(name, path, true, BAD_INO, None, false)
    else VfsNode(name, path, inode.value.isDir, inodeNum, inode, mounted)
  }

  /** A node's name is a proper name, and its path is its parent's path and the name, with a slash for directories. */
  ghost predicate PathOk(h: Heap<VfsNode>, n: nat)
    requires n in h
  {
    var p := h[n].parent;
    if p.None? then h[n].data.path == "/" && h[n].data.isDir
    else
      && p.value in h && h[p.value].data.isDir && Paths.IsWord(h[n].data.name)
      && h[n].data.path == h[p.value].data.path + h[n].data.name + if h[n].data.isDir then "/" else ""
  }

  ghost predicate PathsOk(h: Heap<VfsNode>)
  {
    forall n {:trigger PathOk(h, n)} :: n in h ==> PathOk(h, n)
  }

  /** The names from the root down to a node. */
  ghost function Names(h: Heap<VfsNode>, rank: map<nat, nat>, n: nat): seq<string>
    requires Ranked(h, rank) && n in h
    decreases rank[n]
  {
    assert BelowParent(h, rank, n);
    if h[n].parent.None? then [] else Names(h, rank, h[n].parent.value) + [h[n].data.name]
  }

  /** How many nodes lie above a node. */
  ghost function Depth(h: Heap<VfsNode>, rank: map<nat, nat>, n: nat): nat
    requires Ranked(h, rank) && n in h
    decreases rank[n]
  {
    assert BelowParent(h, rank, n);
    if h[n].parent.None? then 0 else 1 + Depth(h, rank, h[n].parent.value)
  }

  lemma {:induction false} DepthIsNames(h: Heap<VfsNode>, rank: map<nat, nat>, n: nat)
    requires Ranked(h, rank) && n in h
    ensures Depth(h, rank, n) == |Names(h, rank, n)|
    decreases rank[n]
  {
    assert BelowParent(h, rank, n);
    if h[n].parent.Some? {
      DepthIsNames(h, rank, h[n].parent.value);
    }
  }

  /** A node's path consists of the names down to it, and ends in a slash exactly for directories. */
  lemma {:induction false} PathNames(h: Heap<VfsNode>, rank: map<nat, nat>, n: nat)
    requires Ranked(h, rank) && PathsOk(h) && n in h
    ensures var path := h[n].data.path;
            && path != "" && path[0] == '/' && Paths.Segments(path) == Names(h, rank, n)
            && (h[n].data.isDir ==> path[|path| - 1] == '/')
    decreases rank[n]
  {
    assert BelowParent(h, rank, n) && PathOk(h, n);
    if h[n].parent.None? {
      Paths.SegmentsConcat("", "");
      assert "" + "/" + "" == "/";
    } else {
      var p := h[n].parent.value;
      PathNames(h, rank, p);
      var above := h[p].data.path;
      ExtendedPath(above, h[n].data.name, h[n].data.isDir);
    }
  }

  /** A directory's path, a name, and perhaps a slash. */
  lemma ExtendedPath(above: string, name: string, isDir: bool)
    requires above != "" && above[|above| - 1] == '/' && Paths.IsWord(name)
    ensures Paths.Segments(above + name + if isDir then "/" else "") == Paths.Segments(above) + [name]
  {
    var a := above[..|above| - 1];
    assert above == a + "/" + "" && above + name == a + "/" + name;
    Paths.SegmentsConcat(a, "");
    Paths.SegmentsConcat(a, name);
    Paths.SegmentsOfWord(name);
    Paths.SegmentsOfNothing();
    if isDir {
      assert above + name + "/" == (above + name) + "/" + "";
      Paths.SegmentsConcat(above + name, "");
    } else {
      assert above + name + "" == above + name;
    }
  }

  lemma PathTokens(h: Heap<VfsNode>, rank: map<nat, nat>, n: nat)
    requires Ranked(h, rank) && PathsOk(h) && n in h
    ensures h[n].data.path != "" && Paths.Tokens(h[n].data.path) == ["/"] + Names(h, rank, n)
  {
    PathNames(h, rank, n);
    assert Paths.Segments(h[n].data.path) == Paths.Segments(h[n].data.path[1..]);
  }

  // ---------------------------------------------------------------------------------------------
  // Looking up

  /** The first child with this name, looked for from the `k`-th on. */
  function FirstNamed(h: Heap<VfsNode>, ks: seq<nat>, k: nat, name: string): (c: Option<nat>)
    requires k <= |ks| && forall i :: 0 <= i < |ks| ==> ks[i] in h
    ensures c.Some? ==> c.value in ks && h[c.value].data.name == name
    ensures c.None? ==> forall i :: k <= i < |ks| ==> h[ks[i]].data.name != name
    decreases |ks| - k
  {
    if k == |ks| then None else if h[ks[k]].data.name == name then Some(ks[k]) else FirstNamed(h, ks, k + 1, name)
  }

  ghost predicate KidsIn(h: Heap<VfsNode>, kids: Kids)
  {
    h.Keys == kids.Keys && forall n, i :: n in kids && 0 <= i < |kids[n]| ==> kids[n][i] in h
  }

  lemma LinkedKidsIn(h: Heap<VfsNode>, kids: Kids)
    requires Linked(h, kids)
    ensures KidsIn(h, kids)
  {
    forall n, i | n in kids && 0 <= i < |kids[n]|
      ensures kids[n][i] in h
    {
      assert KidsOf(h, kids[n], n);
    }
  }

  /** Following the names from `n` down. */
  function Resolve(h: Heap<VfsNode>, kids: Kids, n: nat, names: seq<string>): Option<nat>
    requires KidsIn(h, kids) && n in h
    decreases |names|
  {
    if names == [] then Some(n)
    else
      var c := FirstNamed(h, kids[n], 0, names[0]);
      if c.None? then None else Resolve(h, kids, c.value, names[1..])
  }

  /** What `get_node` finds. */
  function GetNode(h: Heap<VfsNode>, kids: Kids, root: Option<nat>, path: string): Option<nat>
    requires KidsIn(h, kids) && (root.Some? ==> root.value in h)
  {
    var tokens := Paths.Take(Paths.Tokens(path), Paths.MAX_TOKENS);
    if path == "" || tokens == [] || tokens[0] != "/" || root.None? then None
        else Resolve(h, kids, root.value, tokens[1..])
  }

  /** The node and all nodes above it are the first of their name among their siblings. */
  ghost predicate FirstOfName(h: Heap<VfsNode>, kids: Kids, rank: map<nat, nat>, n: nat)
    requires KidsIn(h, kids) && Ranked(h, rank) && n in h
    decreases rank[n]
  {
    assert BelowParent(h, rank, n);
    h[n].parent.Some? ==>
      FirstNamed(h, kids[h[n].parent.value], 0, h[n].data.name) == Some(n)
          && FirstOfName(h, kids, rank, h[n].parent.value)
  }

  lemma {:induction false} ResolveConcat(h: Heap<VfsNode>, kids: Kids, n: nat, a: seq<string>, b: seq<string>)
    requires KidsIn(h, kids) && n in h
    ensures var m := Resolve(h, kids, n, a);
            && (m.Some? ==> m.value in h)
            && Resolve(h, kids, n, a + b) == if m.None? then None else Resolve(h, kids, m.value, b)
    decreases |a|
  {
    if a == [] {
      assert a + b == b;
    } else {
      var c := FirstNamed(h, kids[n], 0, a[0]);
      assert (a + b)[1..] == a[1..] + b;
      if c.Some? {
        ResolveConcat(h, kids, c.value, a[1..], b);
      }
    }
  }

  /** If every node on the way is the first of its name, the names lead to the node. */
  lemma {:induction false} NamesLead(h: Heap<VfsNode>, kids: Kids, rank: map<nat, nat>, n: nat, root: nat)
    requires KidsIn(h, kids) && Ranked(h, rank) && n in h && root in h && Under(h, rank, n, root)
    requires h[root].parent.None?
    requires FirstOfName(h, kids, rank, n)
    ensures Resolve(h, kids, root, Names(h, rank, n)) == Some(n)
    decreases rank[n]
  {
    assert BelowParent(h, rank, n);
    if h[n].parent.Some? {
      var p := h[n].parent.value;
      NamesLead(h, kids, rank, p, root);
      ResolveConcat(h, kids, root, Names(h, rank, p), [h[n].data.name]);
      assert [h[n].data.name][1..] == [];
    }
  }

  /** One name further down. */
  lemma FoundChild(h: Heap<VfsNode>, kids: Kids, rank: map<nat, nat>, from: nat, name: string)
    requires Linked(h, kids) && KidsIn(h, kids) && Ranked(h, rank) && from in h && FirstOfName(h, kids, rank, from)
    requires FirstNamed(h, kids[from], 0, name).Some?
    ensures var c := FirstNamed(h, kids[from], 0, name).value;
            c in h && FirstOfName(h, kids, rank, c) && Names(h, rank, c) == Names(h, rank, from) + [name]
  {
    assert KidsOf(h, kids[from], from);
  }

  /** Names only lead to a node that has these names, along first nodes of their name. */
  lemma {:induction false} LeadsByNames(h: Heap<VfsNode>, kids: Kids, rank: map<nat, nat>, from: nat,
          names: seq<string>)
    requires Linked(h, kids) && KidsIn(h, kids) && Ranked(h, rank) && from in h && FirstOfName(h, kids, rank, from)
    requires Resolve(h, kids, from, names).Some?
    ensures var n := Resolve(h, kids, from, names).value;
            n in h && Names(h, rank, n) == Names(h, rank, from) + names && FirstOfName(h, kids, rank, n)
    decreases |names|
  {
    hide Linked;
    hide Ranked;
    hide FirstOfName;
    hide FirstNamed;
    hide Names;
    if names != [] {
      FoundChild(h, kids, rank, from, names[0]);
      var c := FirstNamed(h, kids[from], 0, names[0]).value;
      LeadsByNames(h, kids, rank, c, names[1..]);
      assert Names(h, rank, from) + [names[0]] + names[1..] == Names(h, rank, from) + names;
    }
  }

  /** Looking up a node's path gives the node exactly if it lies at most fifteen levels deep and is, like all nodes
      above it, the first of its name: a path has room for sixteen tokens. */
  lemma PathRoundTripIff(h: Heap<VfsNode>, kids: Kids, rank: map<nat, nat>, root: nat, n: nat)
    requires Linked(h, kids) && Ranked(h, rank) && PathsOk(h) && root in h && h[root].parent.None? && n in h
    requires Under(h, rank, n, root)
    ensures KidsIn(h, kids)
    ensures GetNode(h, kids, Some(root), h[n].data.path) == Some(n) <==>
            Depth(h, rank, n) <= 15 && FirstOfName(h, kids, rank, n)
  {
    LinkedKidsIn(h, kids);
    PathTokens(h, rank, n);
    DepthIsNames(h, rank, n);
    var names := Names(h, rank, n);
    var short := Paths.Take(["/"] + names, Paths.MAX_TOKENS)[1..];
    hide Names;
    hide Depth;
    hide Linked;
    if |names| <= 15 {
      assert short == names;
      if FirstOfName(h, kids, rank, n) {
        NamesLead(h, kids, rank, n, root);
      }
    }
    if Resolve(h, kids, root, short) == Some(n) {
      LeadsByNames(h, kids, rank, root, short);
      NoNames(h, rank, root);
      assert [] + short == short;
    }
  }

  /** An absolute path leads to the node that has its first fifteen names, if that is the first of its name. */
  lemma FoundByPathIff(h: Heap<VfsNode>, kids: Kids, rank: map<nat, nat>, root: nat, path: string, n: nat)
    requires Linked(h, kids) && Ranked(h, rank) && root in h && h[root].parent.None? && n in h
    requires Under(h, rank, n, root)
    ensures KidsIn(h, kids)
    ensures GetNode(h, kids, Some(root), path) == Some(n) <==>
            && path != "" && path[0] == '/' && Names(h, rank, n) == Paths.Take(Paths.Segments(path), 15)
            && FirstOfName(h, kids, rank, n)
  {
    LinkedKidsIn(h, kids);
    NoNames(h, rank, root);
    hide Names;
    hide Linked;
    hide Ranked;
    if path != "" && path[0] == '/' {
      var names := Paths.Take(Paths.Segments(path), 15);
      assert Paths.Segments(path) == Paths.Segments(path[1..]);
      assert Paths.Take(["/"] + Paths.Segments(path), 16)[1..] == names;
      if Resolve(h, kids, root, names) == Some(n) {
        LeadsByNames(h, kids, rank, root, names);
        assert [] + names == names;
      }
      if Names(h, rank, n) == names && FirstOfName(h, kids, rank, n) {
        NamesLead(h, kids, rank, n, root);
      }
    } else if path != "" {
      Paths.FirstToken(path);
    }
  }

  lemma NoNames(h: Heap<VfsNode>, rank: map<nat, nat>, root: nat)
    requires Ranked(h, rank) && root in h && h[root].parent.None?
    ensures Names(h, rank, root) == []
  {
  }

  /** Siblings never share a name. */
  ghost predicate NamesUnique(h: Heap<VfsNode>, kids: Kids)
    requires KidsIn(h, kids)
  {
    forall n, i, j :: n in kids && 0 <= i < j < |kids[n]| ==> h[kids[n][i]].data.name != h[kids[n][j]].data.name
  }

  lemma {:induction false} FirstNamedUnique(h: Heap<VfsNode>, ks: seq<nat>, k: nat, i: nat)
    requires k <= i < |ks| && forall i :: 0 <= i < |ks| ==> ks[i] in h
    requires forall i, j :: 0 <= i < j < |ks| ==> h[ks[i]].data.name != h[ks[j]].data.name
    ensures FirstNamed(h, ks, k, h[ks[i]].data.name) == Some(ks[i])
    decreases i - k
  {
    if k < i {
      FirstNamedUnique(h, ks, k + 1, i);
    }
  }

  /** With different names among siblings every node is the first of its name, so that depth alone decides. */
  lemma {:induction false} UniqueIsFirst(h: Heap<VfsNode>, kids: Kids, rank: map<nat, nat>, n: nat)
    requires Linked(h, kids) && KidsIn(h, kids) && Ranked(h, rank) && NamesUnique(h, kids) && n in h
    ensures FirstOfName(h, kids, rank, n)
    decreases rank[n]
  {
    assert BelowParent(h, rank, n) && ChildOfParent(h, kids, n);
    if h[n].parent.Some? {
      var p := h[n].parent.value;
      UniqueIsFirst(h, kids, rank, p);
      var i :| 0 <= i < |kids[p]| && kids[p][i] == n;
      FirstNamedUnique(h, kids[p], 0, i);
    }
  }

  // ---------------------------------------------------------------------------------------------
  // Adding nodes

  /** A new node's path fits exactly if its name has no slash and it is not a file without a file system, which the
      code takes for a directory. */
  lemma NewNodePathIff(h: Heap<VfsNode>, n: nat, p: nat, name: string, inodeNum: nat, inode: Option<Inode>,
          mounted: bool)
    requires n in h && p in h && h[n].parent == Some(p) && h[p].data.isDir && name != ""
    requires h[n].data == NewNode(h[p].data, name, inodeNum, inode, mounted)
    ensures PathOk(h, n) <==> '/' !in name && (inode.Some? && !mounted ==> inode.value.isDir)
  {
    var base := h[p].data.path + name;
    assert |base + "/"| == |base| + 1 && |base + ""| == |base|;
  }

  /** Nothing lies below a node without children but the node itself. */
  lemma NothingBelow(h: Heap<VfsNode>, kids: Kids, rank: map<nat, nat>, n: nat, x: nat)
    requires Linked(h, kids) && Ranked(h, rank) && n in h && kids[n] == [] && x in h && x != n
    ensures !Under(h, rank, x, n)
  {
    if Under(h, rank, x, n) {
      var i := BelowChild(h, kids, rank, n, x);
      assert false;
    }
  }

  /** A new node below a directory changes no other path. */
  lemma AddedPathsOk(h: Heap<VfsNode>, h': Heap<VfsNode>, n: nat, p: nat)
    requires PathsOk(h) && n !in h && p in h && h'.Keys == h.Keys + {n} && h'[n].parent == Some(p)
    requires forall m :: m in h ==> h'[m].data == h[m].data && h'[m].parent == h[m].parent
    ensures PathsOk(h') <==> PathOk(h', n)
  {
    forall m | m in h
      ensures PathOk(h', m)
    {
      assert PathOk(h, m);
    }
  }

  /** The only node that has no parent, and no node at all, if there is none. */
  ghost predicate OneRoot(h: Heap<VfsNode>, root: Option<nat>)
  {
    && (root.Some? ==> root.value in h)
    && forall n {:trigger h[n].parent} :: n in h && h[n].parent.None? ==> root == Some(n)
  }

  /** Without the old root's subtree nothing is left but the new root. */
  lemma OldTreeGone(h: Heap<VfsNode>, kids: Kids, rank: map<nat, nat>, root: Option<nat>, n: nat, h': Heap<VfsNode>,
          kids': Kids, rank': map<nat, nat>)
    requires OneRoot(h, root) && Ranked(h, rank) && n !in h
    requires Linked(h', kids') && Ranked(h', rank') && h'.Keys == h.Keys + {n} && h'[n].parent.None? && kids'[n] == []
    requires forall m :: m in h ==> h'[m].parent == h[m].parent
    ensures root.None? ==> h == map[]
    ensures root.Some? ==> Below(h', rank', root.value) == h.Keys
  {
    forall x | x in h
      ensures root.Some? && Under(h', rank', x, root.value)
    {
      var t := RootAbove(h', rank', x);
      if t == n {
        NothingBelow(h', kids', rank', n, x);
        assert false;
      }
    }
    if root.Some? {
      if Under(h', rank', n, root.value) {
        assert false;
      }
    }
  }

  /** The first child that the predicate accepts is the first of that name. */
  lemma {:induction false} FirstChildNamed(h: Heap<VfsNode>, kids: Kids, n: nat, name: string, found: Option<nat>,
          k: nat)
    requires KidsIn(h, kids) && n in h && k <= |kids[n]|
    requires match found
             case None => forall j :: k <= j < |kids[n]| ==> h[kids[n][j]].data.name != name
             case Some(c) =>
               exists i :: k <= i < |kids[n]| && kids[n][i] == c && h[c].data.name == name
                           && forall j :: k <= j < i ==> h[kids[n][j]].data.name != name
    ensures FirstNamed(h, kids[n], k, name) == found
    decreases |kids[n]| - k
  {
    if k < |kids[n]| && h[kids[n][k]].data.name != name {
      FirstChildNamed(h, kids, n, name, found, k + 1);
    }
  }

  /** A node whose missing inode or file system has been filled in. */
  function Completed(d: VfsNode, inode: Inode): VfsNode
  {
    d.(inode := if d.inode.None? then Some(inode) else d.inode, mounted := true)
  }

  /** What was there already stays; only what is missing is filled in. */
  lemma CompletedKeeps(d: VfsNode, inode: Inode)
    ensures var c := Completed(d, inode);
            && c.name == d.name && c.path == d.path && c.isDir == d.isDir && c.inodeNum == d.inodeNum && c.mounted
            && c.inode.Some? && (d.inode.Some? ==> c.inode == d.inode) && (d.inode.None? ==> c.inode == Some(inode))
  {
  }

  /** Where every path fits, a child with the path that a mounted entry would get is of the entry's kind and name. */
  lemma SamePathReused(h: Heap<VfsNode>, kids: Kids, p: nat, c: nat, name: string, inode: Inode)
    requires PathsOk(h) && p in h && c in h && h[c].parent == Some(p) && '/' !in name
    requires h[c].data.path == NewPath(h[p].data, name, Some(inode))
    ensures h[c].data.name == name && h[c].data.isDir == inode.isDir && Reused(h, Some(c), Some(inode), true)
  {
    assert PathOk(h, c);
    var above, own, d := h[p].data.path, h[c].data.name, h[c].data.isDir;
    assert above + own + (if d then "/" else "") == above + name + if inode.isDir then "/" else "";
    SameEnds(above, own, d, name, inode.isDir);
  }

  lemma SameEnds(above: string, a: string, da: bool, b: string, db: bool)
    requires '/' !in a && '/' !in b
    requires above + a + (if da then "/" else "") == above + b + if db then "/" else ""
    ensures a == b && da == db
  {
    var x, y := a + if da then "/" else "", b + if db then "/" else "";
    assert (above + a + if da then "/" else "") == above + x && (above + b + if db then "/" else "") == above + y;
    assert x == (above + x)[|above|..] == (above + y)[|above|..] == y;
    assert (da ==> x[|a|] == '/') && (!da ==> '/' !in x) && (db ==> y[|b|] == '/') && (!db ==> '/' !in y);
    assert |a| == |b|;
    assert a == x[..|a|] && b == y[..|b|];
  }

  lemma SameNewPath(a: VfsNode, b: VfsNode, name: string, inode: Inode)
    requires a.path == b.path
    ensures NewPath(a, name, Some(inode)) == NewPath(b, name, Some(inode))
  {
  }

  /** The child that carries the path that is asked for. */
  lemma FoundBelow(h: Heap<VfsNode>, kids: Kids, p: nat, path: string, c: nat)
    requires Linked(h, kids) && p in h && FirstChild(h, kids, p, (d: VfsNode) => d.path == path, Some(c))
    ensures c in h && h[c].parent == Some(p) && h[c].data.path == path
  {
    assert KidsOf(h, kids[p], p);
  }

  /** A child that was found first under a path is found again once its data has been completed. */
  lemma FoundAgain(h: Heap<VfsNode>, kids: Kids, p: nat, path: string, n: nat, inode: Inode, again: Option<nat>)
    requires n in h && FirstChild(h, kids, p, (d: VfsNode) => d.path == path, Some(n))
    requires FirstChild(h[n := h[n].(data := Completed(h[n].data, inode))], kids, p, (d: VfsNode) => d.path == path,
               again)
    ensures again == Some(n)
  {
  }

  /** A new last child with a path that no other child has is found under it. */
  lemma NewFound(h: Heap<VfsNode>, kids: Kids, p: nat, path: string, n: nat, h': Heap<VfsNode>, kids': Kids,
          again: Option<nat>)
    requires FirstChild(h, kids, p, (d: VfsNode) => d.path == path, None) && n !in h && p in h
    requires h'.Keys == h.Keys + {n} && (forall m :: m in h ==> h'[m].data == h[m].data) && h'[n].data.path == path
    requires p in kids' && kids'[p] == kids[p] + [n]
    requires FirstChild(h', kids', p, (d: VfsNode) => d.path == path, again)
    ensures again == Some(n)
  {
    assert kids'[p][|kids[p]|] == n;
  }

  lemma CompletedPathsOk(h: Heap<VfsNode>, c: nat, inode: Inode)
    requires PathsOk(h) && c in h
    ensures PathsOk(h[c := h[c].(data := Completed(h[c].data, inode))])
  {
    var h' := h[c := h[c].(data := Completed(h[c].data, inode))];
    forall m | m in h
      ensures PathOk(h', m)
    {
      assert PathOk(h, m);
    }
  }
}
