/**
 The first-child/next-sibling tree as a heap of nodes, and what it means for the heap to be a tree
 (src/kernel/include/lib/data/tree.hpp). A pointer to a node is the node's number.
 */
module TreeModel {
  import opened Options

  datatype Node<T> = Node(data: T, parent: Option<nat>, firstChild: Option<nat>, nextSibling: Option<nat>)

  type Heap<T> = map<nat, Node<T>>

  /** The children of each node, in order. */
  type Kids = map<nat, seq<nat>>

  function Head(ks: seq<nat>): Option<nat> { if ks == [] then None else Some(ks[0]) }

  function Nth(ks: seq<nat>, k: nat): Option<nat> { if k < |ks| then Some(ks[k]) else None }

  function After(ks: seq<nat>, i: nat): Option<nat>
    requires i < |ks|
  {
    if i + 1 < |ks| then Some(ks[i + 1]) else None
  }

  ghost predicate NoRepeats(ks: seq<nat>)
  {
    forall i, j :: 0 <= i < j < |ks| ==> ks[i] != ks[j]
  }

  /** `n`'s pointers lead through exactly these children, each of which names `n` as its parent. */
  ghost predicate KidsOf<T>(h: Heap<T>, ks: seq<nat>, n: nat)
    requires n in h
  {
    && h[n].firstChild == Head(ks) && NoRepeats(ks)
    && (forall i :: 0 <= i < |ks| ==> ks[i] in h && h[ks[i]].parent == Some(n))
    && (forall i :: 0 <= i < |ks| ==> ks[i] in h && h[ks[i]].nextSibling == After(ks, i))
  }

  /** The parent that a node names has it among its children. */
  ghost predicate ChildOfParent<T>(h: Heap<T>, kids: Kids, m: nat)
    requires m in h
  {
    var p := h[m].parent;
    p.Some? ==> p.value in h && p.value in kids && m in kids[p.value]
  }

  /** Parent and sibling pointers are consistent. */
  ghost predicate Linked<T>(h: Heap<T>, kids: Kids)
  {
    && h.Keys == kids.Keys
    && (forall n {:trigger KidsOf(h, kids[n], n)} :: n in h ==> KidsOf(h, kids[n], n))
    && (forall m {:trigger ChildOfParent(h, kids, m)} :: m in h ==> ChildOfParent(h, kids, m))
  }

  ghost predicate BelowParent<T>(h: Heap<T>, rank: map<nat, nat>, m: nat)
    requires m in h && m in rank
  {
    var p := h[m].parent;
    p.Some? ==> p.value in h && p.value in rank && rank[p.value] < rank[m]
  }

  /** There are no circles: parents have smaller ranks than their children. */
  ghost predicate Ranked<T>(h: Heap<T>, rank: map<nat, nat>)
  {
    && rank.Keys == h.Keys
    && forall m {:trigger BelowParent(h, rank, m)} :: m in h ==> BelowParent(h, rank, m)
  }

  /** `x` is `c` or one of its descendants. */
  ghost predicate Under<T>(h: Heap<T>, rank: map<nat, nat>, x: nat, c: nat)
    requires Ranked(h, rank) && x in h
    decreases rank[x]
  {
    assert BelowParent(h, rank, x);
    x == c || (h[x].parent.Some? && Under(h, rank, h[x].parent.value, c))
  }

  /** A node and all its descendants. */
  ghost function Below<T>(h: Heap<T>, rank: map<nat, nat>, c: nat): set<nat>
    requires Ranked(h, rank)
  {
    set x | x in h && Under(h, rank, x, c)
  }

  function WithoutAt(ks: seq<nat>, i: nat): seq<nat>
    requires i < |ks|
  {
    ks[..i] + ks[i + 1..]
  }

  // ---------------------------------------------------------------------------------------------
  // Descendants

  lemma {:induction false} UnderRank<T>(h: Heap<T>, rank: map<nat, nat>, x: nat, c: nat)
    requires Ranked(h, rank) && x in h && Under(h, rank, x, c)
    ensures c in h && rank[c] <= rank[x] && (x != c ==> rank[c] < rank[x])
    decreases rank[x]
  {
    assert BelowParent(h, rank, x);
    if x != c {
      UnderRank(h, rank, h[x].parent.value, c);
    }
  }

  lemma {:induction false} UnderTrans<T>(h: Heap<T>, rank: map<nat, nat>, x: nat, y: nat, z: nat)
    requires Ranked(h, rank) && x in h && y in h && Under(h, rank, x, y) && Under(h, rank, y, z)
    ensures Under(h, rank, x, z)
    decreases rank[x]
  {
    assert BelowParent(h, rank, x);
    if x != y {
      UnderTrans(h, rank, h[x].parent.value, y, z);
    }
  }

  /** The ancestors of a node are all in one line. */
  lemma {:induction false} AncestorsInLine<T>(h: Heap<T>, rank: map<nat, nat>, x: nat, a: nat, b: nat)
    requires Ranked(h, rank) && x in h && a in h && b in h && Under(h, rank, x, a) && Under(h, rank, x, b)
    ensures Under(h, rank, a, b) || Under(h, rank, b, a)
    decreases rank[x]
  {
    assert BelowParent(h, rank, x);
    if x != a && x != b {
      AncestorsInLine(h, rank, h[x].parent.value, a, b);
    }
  }

  /** Two children of one node have no common descendants. */
  lemma SiblingsApart<T>(h: Heap<T>, rank: map<nat, nat>, a: nat, b: nat, x: nat)
    requires Ranked(h, rank) && a in h && b in h && x in h && a != b && h[a].parent.Some? && h[a].parent == h[b].parent
    ensures !(Under(h, rank, x, a) && Under(h, rank, x, b))
  {
    if Under(h, rank, x, a) && Under(h, rank, x, b) {
      AncestorsInLine(h, rank, x, a, b);
      assert BelowParent(h, rank, a) && BelowParent(h, rank, b);
      if Under(h, rank, a, b) {
        UnderRank(h, rank, h[a].parent.value, b);
      } else {
        UnderRank(h, rank, h[b].parent.value, a);
      }
      assert false;
    }
  }

  /** Whatever lies below a node is the node itself or lies below one of its children. */
  lemma {:induction false} BelowChild<T>(h: Heap<T>, kids: Kids, rank: map<nat, nat>, n: nat, x: nat) returns (i: nat)
    requires Linked(h, kids) && Ranked(h, rank) && n in h && x in h && Under(h, rank, x, n) && x != n
    ensures i < |kids[n]| && kids[n][i] in h && Under(h, rank, x, kids[n][i])
    decreases rank[x]
  {
    var p := h[x].parent.value;
    assert BelowParent(h, rank, x) && ChildOfParent(h, kids, x);
    if p == n {
      assert KidsOf(h, kids[n], n);
      i :| 0 <= i < |kids[n]| && kids[n][i] == x;
    } else {
      i := BelowChild(h, kids, rank, n, p);
    }
  }

  lemma ChildBelow<T>(h: Heap<T>, kids: Kids, rank: map<nat, nat>, n: nat, i: nat)
    requires Linked(h, kids) && Ranked(h, rank) && n in h && i < |kids[n]|
    ensures var c := kids[n][i];
            c in h && h[c].parent == Some(n) && c != n && Under(h, rank, c, n) && Below(h, rank, c) < Below(h, rank, n)
  {
    assert KidsOf(h, kids[n], n);
    BelowLess(h, rank, kids[n][i], n);
  }

  lemma BelowLess<T>(h: Heap<T>, rank: map<nat, nat>, c: nat, n: nat)
    requires Ranked(h, rank) && c in h && n in h && h[c].parent == Some(n)
    ensures Under(h, rank, c, n) && Below(h, rank, c) < Below(h, rank, n)
  {
    assert Under(h, rank, n, n) && BelowParent(h, rank, c);
    forall x | x in Below(h, rank, c)
      ensures x in Below(h, rank, n)
    {
      UnderTrans(h, rank, x, c, n);
    }
    assert n !in Below(h, rank, c) by {
      assert BelowParent(h, rank, c);
      if Under(h, rank, n, c) {
        UnderRank(h, rank, n, c);
      }
    }
    assert n in Below(h, rank, n);
  }

  /** Descendants only depend on the parents on the way up. */
  lemma {:induction false} UnderSame<T>(h: Heap<T>, h': Heap<T>, rank: map<nat, nat>, rank': map<nat, nat>, x: nat,
          c: nat)
    requires Ranked(h, rank) && Ranked(h', rank') && x in h && x in h'
    requires forall y :: y in h && Under(h, rank, x, y) ==> y in h' && (y != c ==> h'[y].parent == h[y].parent)
    ensures Under(h', rank', x, c) <==> Under(h, rank, x, c)
    decreases rank[x]
  {
    if x != c {
      assert Under(h, rank, x, x) && BelowParent(h, rank, x) && BelowParent(h', rank', x);
      if h[x].parent.Some? {
        var p := h[x].parent.value;
        forall y | y in h && Under(h, rank, p, y)
          ensures y in h' && (y != c ==> h'[y].parent == h[y].parent)
        {
          assert Under(h, rank, x, y);
        }
        UnderSame(h, h', rank, rank', p, c);
      }
    }
  }

  /** `found` is the first child of `n` whose data satisfies the predicate, if there is one. */
  ghost predicate FirstChild<T>(h: Heap<T>, kids: Kids, n: nat, pred: T -> bool, found: Option<nat>)
  {
    && n in kids && (forall k :: 0 <= k < |kids[n]| ==> kids[n][k] in h)
    && match found
       case None => forall k :: 0 <= k < |kids[n]| ==> !pred(h[kids[n][k]].data)
       case Some(c) =>
         exists k :: 0 <= k < |kids[n]| && kids[n][k] == c && pred(h[c].data)
                     && forall j :: 0 <= j < k ==> !pred(h[kids[n][j]].data)
  }
}
