/** The tree as it relinks its nodes in place. */
module Tree {
  import opened Options
  import opened TreeModel
  import opened TreeProofs

  class SiblingTree<T> {
    var nodes: Heap<T>
    /** The number that the next node gets. */
    var nextId: nat
    ghost var kids: Kids
    ghost var rank: map<nat, nat>
    /** The nodes given back, in order. */
    ghost var freed: seq<nat>

    ghost predicate Valid()
      reads this
    {
      Linked(nodes, kids) && Ranked(nodes, rank) && forall n :: n in nodes ==> n < nextId
    }

    constructor ()
      ensures Valid() && nodes == map[] && freed == []
    {
      nodes, nextId, kids, rank, freed := map[], 0, map[], map[], [];
    }

    /** A node of its own, without parent or children. */
    method Create(data: T) returns (n: nat)
      requires Valid()
      modifies this
      ensures Valid() && n !in old(nodes) && nodes == old(nodes)[n := Node(data, None, None, None)]
      ensures kids == old(kids)[n := []] && rank == old(rank)[n := 0] && freed == old(freed)
    {
      n := nextId;
      CreatedLinked(nodes, kids, rank, n, data);
      nodes, nextId := nodes[n := Node(data, None, None, None)], nextId + 1;
      kids, rank := kids[n := []], rank[n := 0];
    }

    /** New data for a node; the tree stays as it is. */
    method SetData(n: nat, data: T)
      requires Valid() && n in nodes
      modifies this`nodes
      ensures Valid() && nodes == old(nodes)[n := old(nodes)[n].(data := data)]
    {
      hide Linked;
      hide Ranked;
      DataChanged(nodes, kids, rank, n, data);
      nodes := nodes[n := nodes[n].(data := data)];
    }

    /** `detach_from_parent`; the node's own sibling pointer stays as it is. */
    method Detach(node: nat)
      requires Valid() && node in nodes
      modifies this`nodes, this`kids
      ensures Valid()
      ensures match old(nodes)[node].parent
              case None => nodes == old(nodes) && kids == old(kids)
              case Some(p) =>
                && p in old(kids) && node in old(kids)[p] && kids == old(kids)[p := Without(old(kids)[p], node)]
                && UnlinkedFrom(old(nodes), nodes, node)
    {
      hide Linked;
      hide Ranked;
      hide UnlinkedFrom;
      hide KidsOf;
      if nodes[node].parent.None? { return; }
      var p := nodes[node].parent.value;
      ParentFacts(nodes, kids, rank, node);
      ghost var ks := kids[p];
      ghost var i := IndexOf(ks, node);
      UnlinkLinked(nodes, kids, rank, p, i);
      UnlinkedNodes(nodes, kids, rank, p, i);
      ghost var h := nodes;
      if nodes[p].firstChild == Some(node) {
        nodes := nodes[p := nodes[p].(firstChild := nodes[node].nextSibling)];
      } else {
        var prev := nodes[p].firstChild;
        ghost var j := 0;
        while prev.Some? && nodes[prev.value].nextSibling != Some(node)
          invariant j < i && prev == Some(ks[j]) && nodes == h && ks[j] in h
          decreases i - j
        {
          prev := nodes[prev.value].nextSibling;
          j := j + 1;
        }
        if prev.Some? {
          nodes := nodes[prev.value := nodes[prev.value].(nextSibling := nodes[node].nextSibling)];
        }
      }
      nodes := nodes[node := nodes[node].(parent := None)];
      kids := kids[p := Without(ks, node)];
      assert nodes == Unlink(h, ks, p, i);
    }

    /** The part of `add_child` that puts a child without parent behind the last one. */
    method PutLast(parent: nat, child: nat)
      requires Valid() && parent in nodes && child in nodes && nodes[child].parent.None?
      modifies this`nodes, this`kids
      ensures old(kids)[parent] != [] ==> old(kids)[parent][|old(kids)[parent]| - 1] in old(nodes)
      ensures nodes == Append(old(nodes), old(kids)[parent], parent, child)
      ensures kids == old(kids)[parent := old(kids)[parent] + [child]]
    {
      ghost var h, ks := nodes, kids[parent];
      AppendList(h, kids, parent, child);
      hide Linked;
      hide Ranked;
      nodes := nodes[child := nodes[child].(nextSibling := None, parent := Some(parent))];
      if nodes[parent].firstChild.None? {
        nodes := nodes[parent := nodes[parent].(firstChild := Some(child))];
      } else {
        var cur := nodes[parent].firstChild.value;
        ghost var j := 0;
        while nodes[cur].nextSibling.Some?
          invariant j < |ks| && cur == ks[j]
          invariant nodes == h[child := h[child].(nextSibling := None, parent := Some(parent))]
          decreases |ks| - j
        {
          cur := nodes[cur].nextSibling.value;
          j := j + 1;
        }
        nodes := nodes[cur := nodes[cur].(nextSibling := Some(child))];
      }
      kids := kids[parent := ks + [child]];
    }

    /**
     `add_child`: the child leaves its old parent and becomes the last child of the new one. Nothing keeps a caller
     from making an ancestor a child; exactly then the nodes no longer form a tree.
     */
    method AddChild(parent: nat, child: nat)
      requires Valid() && parent in nodes && child in nodes
      modifies this
      ensures Linked(nodes, kids) && nextId == old(nextId) && freed == old(freed)
      ensures kids == Adopted(old(kids), old(nodes)[child].parent, parent, child)
      ensures nodes.Keys == old(nodes).Keys
      ensures forall m :: m in nodes ==> nodes[m].data == old(nodes)[m].data
      ensures forall m :: m in nodes ==> nodes[m].parent == if m == child then Some(parent) else old(nodes)[m].parent
      ensures Valid() <==> !Under(old(nodes), old(rank), parent, child)
      ensures (exists ranks :: Ranked(nodes, ranks)) <==> !Under(old(nodes), old(rank), parent, child)
    {
      ghost var h0 := nodes;
      if nodes[child].parent.Some? {
        Detach(child);
      }
      ghost var h := nodes;
      AppendLinked(h, kids, parent, child);
      AppendedNodes(h0, h, kids, parent, child);
      AppendedRanks(h0, h, kids, rank, parent, child);
      hide *;
      PutLast(parent, child);
      if !Under(h0, rank, parent, child) {
        rank := Shifted(h, rank, parent, child);
      }
    }

    /** The children are deleted first, each unlinking itself from `n`; then `n` leaves its parent and is given back. */
    method DeleteSubtree(n: nat) returns (ghost gone: seq<nat>)
      requires Valid() && n in nodes
      modifies this
      ensures Valid() && Pruned(old(nodes), old(kids), old(rank), n, nodes, kids, rank)
      ensures freed == old(freed) + gone && Lists(gone, Below(old(nodes), old(rank), n))
      ensures gone != [] && gone[|gone| - 1] == n
      decreases Below(nodes, rank, n), 2
    {
      ghost var h0, kids0, rank0 := nodes, kids, rank;
      gone := DeleteChildren(n);
      GoneLast(h0, kids0, rank0, n, gone);
      UnlinkAndFree(n, h0, kids0, rank0);
      gone := gone + [n];
    }

    /** The loop of `delete_subtree` over the children. */
    method DeleteChildren(n: nat) returns (ghost gone: seq<nat>)
      requires Valid() && Linked(nodes, kids) && Ranked(nodes, rank) && n in nodes && n in kids
      modifies this
      ensures Valid() && n in nodes
      ensures Thinned(old(nodes), old(kids), old(rank), n, |old(kids)[n]|, nodes, kids, rank)
      ensures freed == old(freed) + gone && Lists(gone, GoneAfter(old(nodes), old(kids), old(rank), n, |old(kids)[n]|))
      decreases Below(nodes, rank, n), 1
    {
      hide *;
      ghost var h0, kids0, rank0 := nodes, kids, rank;
      var child := nodes[n].firstChild;
      ghost var k := 0;
      gone := [];
      DeleteStart(h0, kids0, rank0, n);
      while child.Some?
        invariant k <= |kids0[n]| && n in nodes && child == Nth(kids0[n], k)
        invariant Valid() && Thinned(h0, kids0, rank0, n, k, nodes, kids, rank)
        invariant freed == old(freed) + gone && Lists(gone, GoneAfter(h0, kids0, rank0, n, k))
        decreases |kids0[n]| - k
      {
        NthChild(kids0[n], k);
        var next;
        next, gone := DeleteChild(n, child.value, h0, kids0, rank0, k, gone);
        child := next;
        k := k + 1;
      }
      NthChild(kids0[n], k);
    }

    /** One round of that loop, for the `k`-th child `c`. */
    method DeleteChild(n: nat, c: nat, ghost h0: Heap<T>, ghost kids0: Kids, ghost rank0: map<nat, nat>, ghost k: nat,
            ghost gone: seq<nat>)
      returns (next: Option<nat>, ghost gone': seq<nat>)
      requires Valid() && n in nodes && Linked(h0, kids0) && Ranked(h0, rank0) && n in h0 && n in kids0
      requires k < |kids0[n]| && c == kids0[n][k] && Thinned(h0, kids0, rank0, n, k, nodes, kids, rank)
      requires Lists(gone, GoneAfter(h0, kids0, rank0, n, k))
      modifies this
      ensures Valid() && n in nodes && Thinned(h0, kids0, rank0, n, k + 1, nodes, kids, rank)
      ensures next == Nth(kids0[n], k + 1) && Lists(gone', GoneAfter(h0, kids0, rank0, n, k + 1))
      ensures gone <= gone' && freed == old(freed) + gone'[|gone|..]
      decreases Below(h0, rank0, n), 0
    {
      hide *;
      NextChild(h0, kids0, rank0, n, k, nodes, kids, rank);
      next := nodes[c].nextSibling;
      ghost var g := DeleteSubtree(c);
      ThinnedStep(h0, kids0, rank0, n, k, old(nodes), old(kids), old(rank), nodes, kids, rank);
      GoneStep(h0, kids0, rank0, n, k, old(nodes), old(kids), old(rank), gone, g);
      gone' := gone + g;
      assert gone'[|gone|..] == g;
    }

    /** The end of `delete_subtree`, for a node whose children are gone. */
    method UnlinkAndFree(n: nat, ghost h0: Heap<T>, ghost kids0: Kids, ghost rank0: map<nat, nat>)
      requires Valid() && n in nodes
      requires Linked(h0, kids0) && Ranked(h0, rank0) && n in h0 && n in kids0
      requires Thinned(h0, kids0, rank0, n, |kids0[n]|, nodes, kids, rank)
      modifies this
      ensures Valid() && Pruned(h0, kids0, rank0, n, nodes, kids, rank) && freed == old(freed) + [n]
    {
      hide Linked;
      hide Ranked;
      hide Thinned;
      hide Pruned;
      hide UnlinkedFrom;
      hide Without;
      ghost var h1, kids1 := nodes, kids;
      ThinnedParent(h0, kids0, rank0, n, |kids0[n]|, nodes, kids, rank);
      if nodes[n].parent.Some? {
        Detach(n);
      }
      PrunedAtEnd(h0, kids0, rank0, n, h1, kids1, rank, nodes, kids);
      nodes := nodes - {n};
      kids, rank, freed := kids - {n}, rank - {n}, freed + [n];
    }

    /** The nodes in the order in which `traverse` visits them. */
    method Traverse(n: nat) returns (visited: seq<nat>)
      requires Valid() && n in nodes
      ensures visited == Preorder(nodes, kids, rank, n)
      decreases Below(nodes, rank, n)
    {
      hide Linked;
      hide Ranked;
      ChildList(nodes, kids, n);
      visited := [n];
      var child := nodes[n].firstChild;
      ghost var k := 0;
      while child.Some?
        invariant k <= |kids[n]| && child == Nth(kids[n], k)
        invariant visited + PreorderFrom(nodes, kids, rank, n, k) == Preorder(nodes, kids, rank, n)
        decreases |kids[n]| - k
      {
        ChildBelow(nodes, kids, rank, n, k);
        var below := Traverse(child.value);
        ghost var rest := PreorderFrom(nodes, kids, rank, n, k + 1);
        assert visited + (below + rest) == visited + below + rest;
        visited := visited + below;
        child := nodes[child.value].nextSibling;
        k := k + 1;
      }
    }

    /** `find_child_by_predicate`: the first child whose data satisfies the predicate. */
    method FindChild(n: nat, pred: T -> bool) returns (found: Option<nat>)
      requires Valid() && n in nodes
      ensures FirstChild(nodes, kids, n, pred, found)
    {
      hide Linked;
      hide Ranked;
      ChildList(nodes, kids, n);
      var child := nodes[n].firstChild;
      ghost var k := 0;
      while child.Some?
        invariant k <= |kids[n]| && child == Nth(kids[n], k)
        invariant forall j :: 0 <= j < k ==> !pred(nodes[kids[n][j]].data)
        decreases |kids[n]| - k
      {
        if pred(nodes[child.value].data) { return child; }
        child := nodes[child.value].nextSibling;
        k := k + 1;
      }
      return None;
    }
  }
}
