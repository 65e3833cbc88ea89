/** What linking, unlinking and deleting nodes does to the tree. */
module TreeProofs {
  import opened Options
  import opened TreeModel

  /** A list of children only depends on its own nodes. */
  lemma KidsSame<T>(h: Heap<T>, h': Heap<T>, ks: seq<nat>, n: nat)
    requires n in h && n in h' && KidsOf(h, ks, n) && h'[n].firstChild == h[n].firstChild
    requires forall i :: 0 <= i < |ks| ==>
            ks[i] in h' && h'[ks[i]].parent == h[ks[i]].parent && h'[ks[i]].nextSibling == h[ks[i]].nextSibling
    ensures KidsOf(h', ks, n)
  {
  }

  /** The heap after `child`, a node without parent, has become the last child of `p`. */
  function Append<T>(h: Heap<T>, ks: seq<nat>, p: nat, child: nat): Heap<T>
    requires p in h && child in h && (ks != [] ==> ks[|ks| - 1] in h)
  {
    var h1 := h[child := h[child].(nextSibling := None, parent := Some(p))];
    if ks == [] then h1[p := h1[p].(firstChild := Some(child))]
    else h1[ks[|ks| - 1] := h1[ks[|ks| - 1]].(nextSibling := Some(child))]
  }

  lemma AppendFields<T>(h: Heap<T>, ks: seq<nat>, p: nat, child: nat, x: nat)
    requires p in h && child in h && x in h && (ks != [] ==> ks[|ks| - 1] in h && ks[|ks| - 1] != child)
    ensures var h' := Append(h, ks, p, child);
            && x in h' && h'[x].data == h[x].data
            && h'[x].parent == (if x == child then Some(p) else h[x].parent)
            && h'[x].firstChild == (if x == p && ks == [] then Some(child) else h[x].firstChild)
            && h'[x].nextSibling == (if x == child then None
                                      else if ks != [] && x == ks[|ks| - 1] then Some(child) else h[x].nextSibling)
  {
  }

  /** A node without parent is nobody's child. */
  lemma RootInNoList<T>(h: Heap<T>, kids: Kids, n: nat, root: nat, i: nat)
    requires Linked(h, kids) && n in h && root in h && h[root].parent.None? && i < |kids[n]|
    ensures kids[n][i] in h && kids[n][i] != root
  {
    assert KidsOf(h, kids[n], n);
  }

  lemma AppendOwn<T>(h: Heap<T>, ks: seq<nat>, p: nat, child: nat)
    requires p in h && child in h && KidsOf(h, ks, p) && h[child].parent.None?
    ensures KidsOf(Append(h, ks, p, child), ks + [child], p)
  {
    var h', ks' := Append(h, ks, p, child), ks + [child];
    AppendFields(h, ks, p, child, p);
    AppendFields(h, ks, p, child, child);
    hide Append;
    forall j | 0 <= j < |ks|
      ensures ks[j] != child && ks[j] in h' && h'[ks[j]].parent == Some(p) && h'[ks[j]].nextSibling == After(ks', j)
    {
      AppendFields(h, ks, p, child, ks[j]);
      assert h[ks[j]].nextSibling == After(ks, j);
    }
  }

  lemma AppendKids<T>(h: Heap<T>, kids: Kids, p: nat, child: nat, n: nat)
    requires Linked(h, kids) && p in h && child in h && h[child].parent.None? && n in h
    ensures kids[p] != [] ==> kids[p][|kids[p]| - 1] in h
    ensures n in Append(h, kids[p], p, child)
    ensures KidsOf(Append(h, kids[p], p, child), kids[p := kids[p] + [child]][n], n)
  {
    assert KidsOf(h, kids[p], p) && KidsOf(h, kids[n], n);
    if n == p {
      AppendOwn(h, kids[p], p, child);
    } else {
      var h' := Append(h, kids[p], p, child);
      AppendFields(h, kids[p], p, child, n);
      hide Append;
      forall i | 0 <= i < |kids[n]|
        ensures kids[n][i] in h' && h'[kids[n][i]].parent == h[kids[n][i]].parent
        ensures h'[kids[n][i]].nextSibling == h[kids[n][i]].nextSibling
      {
        AppendFields(h, kids[p], p, child, kids[n][i]);
      }
      KidsSame(h, h', kids[n], n);
    }
  }

  lemma AppendParent<T>(h: Heap<T>, kids: Kids, p: nat, child: nat, x: nat)
    requires Linked(h, kids) && p in h && child in h && h[child].parent.None? && x in h
    ensures kids[p] != [] ==> kids[p][|kids[p]| - 1] in h
    ensures var h' := Append(h, kids[p], p, child);
            x in h' && h'[x].parent == (if x == child then Some(p) else h[x].parent) && h'[x].data == h[x].data
  {
    assert KidsOf(h, kids[p], p);
    AppendFields(h, kids[p], p, child, x);
  }

  lemma AppendParents<T>(h: Heap<T>, kids: Kids, p: nat, child: nat, m: nat)
    requires Linked(h, kids) && p in h && child in h && h[child].parent.None? && m in h
    ensures kids[p] != [] ==> kids[p][|kids[p]| - 1] in h
    ensures m in Append(h, kids[p], p, child)
    ensures ChildOfParent(Append(h, kids[p], p, child), kids[p := kids[p] + [child]], m)
  {
    AppendParent(h, kids, p, child, m);
    AppendParent(h, kids, p, child, p);
    assert ChildOfParent(h, kids, m);
    if m != child && h[m].parent.Some? {
      AppendParent(h, kids, p, child, h[m].parent.value);
    }
  }

  /** The lists stay consistent even if the child is an ancestor of its new parent. */
  lemma AppendLinked<T>(h: Heap<T>, kids: Kids, p: nat, child: nat)
    requires Linked(h, kids) && p in h && child in h && h[child].parent.None?
    ensures kids[p] != [] ==> kids[p][|kids[p]| - 1] in h
    ensures Append(h, kids[p], p, child).Keys == h.Keys
    ensures Linked(Append(h, kids[p], p, child), kids[p := kids[p] + [child]])
  {
    AppendParents(h, kids, p, child, p);
    var h', kids' := Append(h, kids[p], p, child), kids[p := kids[p] + [child]];
    assert h'.Keys == h.Keys;
    hide Append;
    hide KidsOf;
    hide ChildOfParent;
    forall n | n in h
      ensures KidsOf(h', kids'[n], n) && ChildOfParent(h', kids', n)
    {
      AppendKids(h, kids, p, child, n);
      AppendParents(h, kids, p, child, n);
    }
  }

  /** The ranks that put everything below `child` behind `p`. */
  ghost function Shifted<T>(h: Heap<T>, rank: map<nat, nat>, p: nat, child: nat): map<nat, nat>
    requires Ranked(h, rank) && p in h
  {
    map x | x in h :: if Under(h, rank, x, child) then rank[x] + rank[p] + 1 else rank[x]
  }

  lemma AppendRanked<T>(h: Heap<T>, kids: Kids, rank: map<nat, nat>, p: nat, child: nat)
    requires Linked(h, kids) && Ranked(h, rank) && p in h && child in h && h[child].parent.None?
    requires !Under(h, rank, p, child)
    ensures kids[p] != [] ==> kids[p][|kids[p]| - 1] in h
    ensures Ranked(Append(h, kids[p], p, child), Shifted(h, rank, p, child))
  {
    AppendLinked(h, kids, p, child);
    var h', rank' := Append(h, kids[p], p, child), Shifted(h, rank, p, child);
    assert h'.Keys == h.Keys;
    forall m | m in h
      ensures BelowParent(h', rank', m)
    {
      AppendParent(h, kids, p, child, m);
      assert BelowParent(h, rank, m);
      assert m == child ==> Under(h, rank, m, child);
    }
  }

  /** An ancestor made a child closes a circle: no ranks fit any more. */
  lemma {:induction false} RankAlong<T>(h: Heap<T>, h': Heap<T>, rank: map<nat, nat>, rank': map<nat, nat>, x: nat,
          c: nat)
    requires Ranked(h, rank) && Ranked(h', rank') && h'.Keys == h.Keys && x in h && Under(h, rank, x, c)
    requires forall y :: y in h && y != c ==> h'[y].parent == h[y].parent
    ensures c in h && rank'[c] <= rank'[x]
    decreases rank[x]
  {
    assert BelowParent(h, rank, x) && BelowParent(h', rank', x);
    if x != c {
      RankAlong(h, h', rank, rank', h[x].parent.value, c);
    }
  }

  /** Making a node a child keeps the tree free of circles exactly if the new parent does not lie below it. */
  lemma AppendAcyclicIff<T>(h: Heap<T>, kids: Kids, rank: map<nat, nat>, p: nat, child: nat)
    requires Linked(h, kids) && Ranked(h, rank) && p in h && child in h && h[child].parent.None?
    ensures kids[p] != [] ==> kids[p][|kids[p]| - 1] in h
    ensures (exists rank' :: Ranked(Append(h, kids[p], p, child), rank')) <==> !Under(h, rank, p, child)
  {
    AppendLinked(h, kids, p, child);
    var h' := Append(h, kids[p], p, child);
    if !Under(h, rank, p, child) {
      AppendRanked(h, kids, rank, p, child);
    } else {
      forall y | y in h
        ensures h'[y].parent == if y == child then Some(p) else h[y].parent
      {
        AppendParent(h, kids, p, child, y);
      }
      hide Append;
      forall rank'
        ensures !Ranked(h', rank')
      {
        if Ranked(h', rank') {
          assert BelowParent(h', rank', child);
          RankAlong(h, h', rank, rank', p, child);
          assert false;
        }
      }
    }
  }

  lemma CreatedKids<T>(h: Heap<T>, kids: Kids, n: nat, m: nat, data: T)
    requires Linked(h, kids) && n !in h && m in h
    ensures KidsOf(h[n := Node(data, None, None, None)], kids[n := []][m], m)
  {
    assert KidsOf(h, kids[m], m);
    KidsSame(h, h[n := Node(data, None, None, None)], kids[m], m);
  }

  lemma CreatedLinked<T>(h: Heap<T>, kids: Kids, rank: map<nat, nat>, n: nat, data: T)
    requires Linked(h, kids) && Ranked(h, rank) && n !in h
    ensures Linked(h[n := Node(data, None, None, None)], kids[n := []])
    ensures Ranked(h[n := Node(data, None, None, None)], rank[n := 0])
  {
    var h', kids' := h[n := Node(data, None, None, None)], kids[n := []];
    assert KidsOf(h', [], n);
    hide KidsOf;
    forall m | m in h'
      ensures KidsOf(h', kids'[m], m)
    {
      if m != n {
        CreatedKids(h, kids, n, m, data);
      }
    }
    forall m | m in h'
      ensures ChildOfParent(h', kids', m) && BelowParent(h', rank[n := 0], m)
    {
      if m != n {
        assert ChildOfParent(h, kids, m) && BelowParent(h, rank, m);
      }
    }
  }

  /** The heap after `node`, the `i`-th child of `p`, has been taken out of its parent's list. */
  function Unlink<T>(h: Heap<T>, ks: seq<nat>, p: nat, i: nat): Heap<T>
    requires i < |ks| && p in h && ks[i] in h && (i > 0 ==> ks[i - 1] in h)
  {
    var node := ks[i];
    var h1 := if i == 0 then h[p := h[p].(firstChild := h[node].nextSibling)]
              else h[ks[i - 1] := h[ks[i - 1]].(nextSibling := h[node].nextSibling)];
    h1[node := h1[node].(parent := None)]
  }

  /** What changes for the node `x`. */
  lemma UnlinkFields<T>(h: Heap<T>, ks: seq<nat>, p: nat, i: nat, x: nat)
    requires i < |ks| && p in h && ks[i] in h && (i > 0 ==> ks[i - 1] in h && ks[i - 1] != ks[i]) && p != ks[i]
    requires x in h
    ensures var h', node := Unlink(h, ks, p, i), ks[i];
            && x in h' && h'[x].data == h[x].data
            && h'[x].parent == (if x == node then None else h[x].parent)
            && h'[x].firstChild == (if x == p && i == 0 then h[node].nextSibling else h[x].firstChild)
            && h'[x].nextSibling == (if i > 0 && x == ks[i - 1] then h[node].nextSibling else h[x].nextSibling)
  {
  }

  lemma UnlinkOthers<T>(h: Heap<T>, kids: Kids, p: nat, i: nat, n: nat)
    requires Linked(h, kids) && p in h && n in h && n != p && i < |kids[p]| && kids[p][i] != p
    ensures kids[p][i] in h && (i > 0 ==> kids[p][i - 1] in h)
    ensures n in Unlink(h, kids[p], p, i) && KidsOf(Unlink(h, kids[p], p, i), kids[n], n)
  {
    assert KidsOf(h, kids[p], p) && KidsOf(h, kids[n], n);
    var ks, h' := kids[p], Unlink(h, kids[p], p, i);
    hide Linked;
    UnlinkFields(h, ks, p, i, n);
    forall j | 0 <= j < |kids[n]|
      ensures kids[n][j] in h' && h'[kids[n][j]].parent == Some(n) && h'[kids[n][j]].nextSibling == After(kids[n], j)
    {
      UnlinkFields(h, ks, p, i, kids[n][j]);
      assert h[kids[n][j]].parent == Some(n);
    }
  }

  lemma WithoutAtIndex(ks: seq<nat>, i: nat)
    requires i < |ks| && NoRepeats(ks)
    ensures |WithoutAt(ks, i)| == |ks| - 1 && NoRepeats(WithoutAt(ks, i))
    ensures forall j :: 0 <= j < |ks| - 1 ==> WithoutAt(ks, i)[j] == ks[if j < i then j else j + 1]
  {
  }

  lemma UnlinkOwn<T>(h: Heap<T>, ks: seq<nat>, p: nat, i: nat)
    requires p in h && KidsOf(h, ks, p) && i < |ks| && ks[i] != p
    ensures p in Unlink(h, ks, p, i) && KidsOf(Unlink(h, ks, p, i), WithoutAt(ks, i), p)
  {
    var h', ks' := Unlink(h, ks, p, i), WithoutAt(ks, i);
    WithoutAtIndex(ks, i);
    UnlinkFields(h, ks, p, i, p);
    assert h[ks[i]].nextSibling == After(ks, i);
    hide Unlink;
    hide WithoutAt;
    hide NoRepeats;
    forall j | 0 <= j < |ks'|
      ensures ks'[j] in h' && h'[ks'[j]].parent == Some(p) && h'[ks'[j]].nextSibling == After(ks', j)
    {
      var k := if j < i then j else j + 1;
      assert ks[k] != ks[i] && (i > 0 ==> (ks[k] == ks[i - 1] <==> k == i - 1)) by {
        assert NoRepeats(ks);
        Different(ks, k, i);
        if i > 0 { Different(ks, k, i - 1); }
      }
      UnlinkFields(h, ks, p, i, ks[k]);
      assert h[ks[k]].nextSibling == After(ks, k);
    }
  }

  lemma Different(ks: seq<nat>, i: nat, j: nat)
    requires NoRepeats(ks) && i < |ks| && j < |ks|
    ensures ks[i] == ks[j] <==> i == j
  {
  }

  lemma UnlinkKids<T>(h: Heap<T>, kids: Kids, rank: map<nat, nat>, p: nat, i: nat, n: nat)
    requires Linked(h, kids) && Ranked(h, rank) && p in h && i < |kids[p]| && n in h
    ensures kids[p][i] in h && (i > 0 ==> kids[p][i - 1] in h)
    ensures n in Unlink(h, kids[p], p, i) && KidsOf(Unlink(h, kids[p], p, i), kids[p := WithoutAt(kids[p], i)][n], n)
  {
    ChildBelow(h, kids, rank, p, i);
    assert KidsOf(h, kids[p], p);
    if n == p {
      UnlinkOwn(h, kids[p], p, i);
    } else {
      UnlinkOthers(h, kids, p, i, n);
    }
  }

  lemma UnlinkParents<T>(h: Heap<T>, kids: Kids, rank: map<nat, nat>, p: nat, i: nat)
    requires Linked(h, kids) && Ranked(h, rank) && p in h && i < |kids[p]|
    ensures kids[p][i] in h && (i > 0 ==> kids[p][i - 1] in h)
    ensures var h', kids' := Unlink(h, kids[p], p, i), kids[p := WithoutAt(kids[p], i)];
            && h'.Keys == h.Keys
            && (forall m {:trigger ChildOfParent(h', kids', m)} :: m in h ==> ChildOfParent(h', kids', m))
            && (forall m {:trigger BelowParent(h', rank, m)} :: m in h ==> BelowParent(h', rank, m))
  {
    var ks := kids[p];
    ChildBelow(h, kids, rank, p, i);
    assert KidsOf(h, ks, p);
    var h', kids' := Unlink(h, ks, p, i), kids[p := WithoutAt(ks, i)];
    assert h'.Keys == h.Keys;
    hide Unlink;
    hide KidsOf;
    hide WithoutAt;
    forall m | m in h
      ensures ChildOfParent(h', kids', m) && BelowParent(h', rank, m)
    {
      UnlinkFields(h, ks, p, i, m);
      assert ChildOfParent(h, kids, m) && BelowParent(h, rank, m);
      if h[m].parent == Some(p) && m != ks[i] {
        InWithout(ks, i, m);
      }
    }
  }

  /** Taking a child out of its parent's list leaves a well-formed tree. */
  lemma UnlinkLinked<T>(h: Heap<T>, kids: Kids, rank: map<nat, nat>, p: nat, i: nat)
    requires Linked(h, kids) && Ranked(h, rank) && p in h && i < |kids[p]|
    ensures kids[p][i] in h && (i > 0 ==> kids[p][i - 1] in h)
    ensures var h' := Unlink(h, kids[p], p, i);
            h'.Keys == h.Keys && Linked(h', kids[p := WithoutAt(kids[p], i)]) && Ranked(h', rank)
  {
    UnlinkParents(h, kids, rank, p, i);
    var h', kids' := Unlink(h, kids[p], p, i), kids[p := WithoutAt(kids[p], i)];
    hide Unlink;
    hide KidsOf;
    hide WithoutAt;
    hide BelowParent;
    hide ChildOfParent;
    forall n | n in h
      ensures KidsOf(h', kids'[n], n)
    {
      UnlinkKids(h, kids, rank, p, i, n);
    }
  }

  lemma InWithout(ks: seq<nat>, i: nat, m: nat)
    requires i < |ks| && m in ks && m != ks[i]
    ensures m in WithoutAt(ks, i)
  {
    var j :| 0 <= j < |ks| && ks[j] == m;
    assert WithoutAt(ks, i)[if j < i then j else j - 1] == m;
  }

  /** The place of a child in its parent's list. */
  ghost function IndexOf(ks: seq<nat>, x: nat): (i: nat)
    requires x in ks
    ensures i < |ks| && ks[i] == x
  {
    var i :| 0 <= i < |ks| && ks[i] == x;
    i
  }

  ghost function Without(ks: seq<nat>, x: nat): seq<nat>
  {
    if x in ks then WithoutAt(ks, IndexOf(ks, x)) else ks
  }

  // ---------------------------------------------------------------------------------------------
  // Deleting

  /** What the first `k` children of `n` and everything below them have taken away. */
  ghost function GoneAfter<T>(h: Heap<T>, kids: Kids, rank: map<nat, nat>, n: nat, k: nat): set<nat>
    requires Ranked(h, rank) && n in kids && k <= |kids[n]|
  {
    if k == 0 then {} else GoneAfter(h, kids, rank, n, k - 1) + Below(h, rank, kids[n][k - 1])
  }

  lemma {:induction false} InGone<T>(h: Heap<T>, kids: Kids, rank: map<nat, nat>, n: nat, k: nat, x: nat)
      returns (j: nat)
    requires Ranked(h, rank) && n in kids && k <= |kids[n]| && x in GoneAfter(h, kids, rank, n, k)
    ensures j < k && x in Below(h, rank, kids[n][j])
  {
    if x in Below(h, rank, kids[n][k - 1]) {
      j := k - 1;
    } else {
      j := InGone(h, kids, rank, n, k - 1, x);
    }
  }

  lemma {:induction false} BelowInGone<T>(h: Heap<T>, kids: Kids, rank: map<nat, nat>, n: nat, k: nat, j: nat)
    requires Ranked(h, rank) && n in kids && k <= |kids[n]| && j < k
    ensures Below(h, rank, kids[n][j]) <= GoneAfter(h, kids, rank, n, k)
  {
    if j < k - 1 {
      BelowInGone(h, kids, rank, n, k - 1, j);
    }
  }

  /** All children together take everything below `n` away but `n` itself. */
  lemma GoneAtEnd<T>(h: Heap<T>, kids: Kids, rank: map<nat, nat>, n: nat)
    requires Linked(h, kids) && Ranked(h, rank) && n in h
    ensures GoneAfter(h, kids, rank, n, |kids[n]|) == Below(h, rank, n) - {n}
  {
    assert n in kids;
    hide Linked;
    hide Below;
    forall x | x in GoneAfter(h, kids, rank, n, |kids[n]|)
      ensures x in Below(h, rank, n) && x != n
    {
      var j := InGone(h, kids, rank, n, |kids[n]|, x);
      ChildBelow(h, kids, rank, n, j);
      NotBelowChild(h, kids, rank, n, j);
    }
    forall x | x in Below(h, rank, n) && x != n
      ensures x in GoneAfter(h, kids, rank, n, |kids[n]|)
    {
      var i := InBelowChild(h, kids, rank, n, x);
      BelowInGone(h, kids, rank, n, |kids[n]|, i);
    }
  }

  lemma NotBelowChild<T>(h: Heap<T>, kids: Kids, rank: map<nat, nat>, n: nat, j: nat)
    requires Linked(h, kids) && Ranked(h, rank) && n in h && j < |kids[n]|
    ensures n !in Below(h, rank, kids[n][j])
  {
    ChildBelow(h, kids, rank, n, j);
    assert BelowParent(h, rank, kids[n][j]);
    if Under(h, rank, n, kids[n][j]) {
      UnderRank(h, rank, n, kids[n][j]);
    }
  }

  lemma InBelowChild<T>(h: Heap<T>, kids: Kids, rank: map<nat, nat>, n: nat, x: nat) returns (i: nat)
    requires Linked(h, kids) && Ranked(h, rank) && n in h && x in Below(h, rank, n) && x != n
    ensures i < |kids[n]| && x in Below(h, rank, kids[n][i])
  {
    i := BelowChild(h, kids, rank, n, x);
  }

  /** The tree while the children of `n` are being deleted: `k` of them are gone with everything below them. */
  ghost predicate Thinned<T>(h: Heap<T>, kids: Kids, rank: map<nat, nat>, n: nat, k: nat, h': Heap<T>, kids': Kids,
          rank': map<nat, nat>)
    requires Ranked(h, rank) && n in kids && k <= |kids[n]|
  {
    && Linked(h', kids') && Ranked(h', rank') && h.Keys == kids.Keys
    && h'.Keys == h.Keys - GoneAfter(h, kids, rank, n, k)
    && (forall m :: m in h' ==> h'[m].data == h[m].data && h'[m].parent == h[m].parent)
    && (forall m :: m in h' ==> kids'[m] == if m == n then kids[n][k..] else kids[m])
  }

  /** What is left of the tree has the same descendants as before. */
  lemma ThinnedUnder<T>(h: Heap<T>, kids: Kids, rank: map<nat, nat>, n: nat, k: nat, h': Heap<T>, kids': Kids,
          rank': map<nat, nat>, x: nat, c: nat)
    requires Linked(h, kids) && Ranked(h, rank) && n in h && k <= |kids[n]|
    requires Thinned(h, kids, rank, n, k, h', kids', rank')
    requires x in h'
    ensures Under(h', rank', x, c) <==> Under(h, rank, x, c)
  {
    hide Linked;
    forall y | y in h && Under(h, rank, x, y)
      ensures y in h'
    {
      if y in GoneAfter(h, kids, rank, n, k) {
        var j := InGone(h, kids, rank, n, k, y);
        UnderTrans(h, rank, x, y, kids[n][j]);
        BelowInGone(h, kids, rank, n, k, j);
        assert false;
      }
    }
    UnderSame(h, h', rank, rank', x, c);
  }

  /** The next child to delete still has everything below it. */
  lemma ThinnedBelow<T>(h: Heap<T>, kids: Kids, rank: map<nat, nat>, n: nat, k: nat, h': Heap<T>, kids': Kids,
          rank': map<nat, nat>)
    requires Linked(h, kids) && Ranked(h, rank) && n in h && k < |kids[n]|
    requires Thinned(h, kids, rank, n, k, h', kids', rank')
    ensures kids[n][k] in h && Below(h', rank', kids[n][k]) == Below(h, rank, kids[n][k])
  {
    var c := kids[n][k];
    ChildBelow(h, kids, rank, n, k);
    forall x | x in h'
      ensures x in Below(h', rank', c) <==> x in Below(h, rank, c)
    {
      ThinnedUnder(h, kids, rank, n, k, h', kids', rank', x, c);
    }
    forall x | x in Below(h, rank, c)
      ensures x in h'
    {
      if x in GoneAfter(h, kids, rank, n, k) {
        var j := InGone(h, kids, rank, n, k, x);
        ChildBelow(h, kids, rank, n, j);
        DifferentKids(h, kids, n, j, k);
        SiblingsApart(h, rank, kids[n][j], c, x);
        assert false;
      }
    }
  }

  lemma DifferentKids<T>(h: Heap<T>, kids: Kids, n: nat, i: nat, j: nat)
    requires Linked(h, kids) && n in h && i < j < |kids[n]|
    ensures kids[n][i] != kids[n][j]
  {
    assert KidsOf(h, kids[n], n);
  }

  lemma RemoveKids<T>(h: Heap<T>, kids: Kids, n: nat, m: nat)
    requires Linked(h, kids) && n in h && h[n].parent.None? && m in h && m != n
    ensures KidsOf(h - {n}, (kids - {n})[m], m)
  {
    assert KidsOf(h, kids[m], m);
    forall i | 0 <= i < |kids[m]|
      ensures kids[m][i] in h - {n}
    {
      RootInNoList(h, kids, m, n, i);
    }
    KidsSame(h, h - {n}, kids[m], m);
  }

  /** A node without parent and children can go. */
  lemma RemoveLinked<T>(h: Heap<T>, kids: Kids, rank: map<nat, nat>, n: nat)
    requires Linked(h, kids) && Ranked(h, rank) && n in h && h[n].parent.None? && kids[n] == []
    ensures Linked(h - {n}, kids - {n}) && Ranked(h - {n}, rank - {n})
  {
    var h', kids' := h - {n}, kids - {n};
    hide KidsOf;
    forall m | m in h'
      ensures KidsOf(h', kids'[m], m)
    {
      RemoveKids(h, kids, n, m);
    }
    forall m | m in h'
      ensures ChildOfParent(h', kids', m) && BelowParent(h', rank - {n}, m)
    {
      assert ChildOfParent(h, kids, m) && BelowParent(h, rank, m);
    }
  }

  // ---------------------------------------------------------------------------------------------
  // For the methods

  /** Only `node` loses its parent, and all nodes keep their data. */
  ghost predicate UnlinkedFrom<T>(h: Heap<T>, h': Heap<T>, node: nat)
  {
    && h'.Keys == h.Keys
    && forall m :: m in h' ==> h'[m].data == h[m].data && h'[m].parent == if m == node then None else h[m].parent
  }

  lemma UnlinkedNodes<T>(h: Heap<T>, kids: Kids, rank: map<nat, nat>, p: nat, i: nat)
    requires Linked(h, kids) && Ranked(h, rank) && p in h && i < |kids[p]|
    ensures kids[p][i] in h && (i > 0 ==> kids[p][i - 1] in h)
    ensures UnlinkedFrom(h, Unlink(h, kids[p], p, i), kids[p][i])
  {
    ChildBelow(h, kids, rank, p, i);
    assert KidsOf(h, kids[p], p);
    UnlinkLinked(h, kids, rank, p, i);
    hide Unlink;
    forall m | m in h
      ensures var h' := Unlink(h, kids[p], p, i);
              m in h' && h'[m].data == h[m].data && h'[m].parent == if m == kids[p][i] then None else h[m].parent
    {
      UnlinkFields(h, kids[p], p, i, m);
    }
  }

  lemma ParentFacts<T>(h: Heap<T>, kids: Kids, rank: map<nat, nat>, node: nat)
    requires Linked(h, kids) && Ranked(h, rank) && node in h && h[node].parent.Some?
    ensures var p := h[node].parent.value;
            && p in h && p in kids && p != node && node in kids[p] && h[p].firstChild == Head(kids[p])
            && NoRepeats(kids[p])
            && (forall i :: 0 <= i < |kids[p]| ==> kids[p][i] in h)
            && forall i :: 0 <= i < |kids[p]| ==> h[kids[p][i]].nextSibling == After(kids[p], i)
  {
    assert ChildOfParent(h, kids, node) && BelowParent(h, rank, node);
    assert KidsOf(h, kids[h[node].parent.value], h[node].parent.value);
  }

  /** What deleting `n` and everything below it leaves. */
  ghost predicate Pruned<T>(h: Heap<T>, kids: Kids, rank: map<nat, nat>, n: nat, h': Heap<T>, kids': Kids,
          rank': map<nat, nat>)
    requires Ranked(h, rank) && n in h && h.Keys == kids.Keys
  {
    && Linked(h', kids') && Ranked(h', rank')
    && h'.Keys == h.Keys - Below(h, rank, n)
    && (forall m :: m in h' ==> h'[m].data == h[m].data && h'[m].parent == h[m].parent)
    && (forall m :: m in h' ==> kids'[m] == if h[n].parent == Some(m) then Without(kids[m], n) else kids[m])
  }

  lemma WithoutFirst(ks: seq<nat>, x: nat)
    requires NoRepeats(ks) && ks != [] && ks[0] == x
    ensures Without(ks, x) == ks[1..]
  {
    Different(ks, 0, IndexOf(ks, x));
  }

  /** Deleting the next child takes one more of them away. */
  lemma ThinnedStep<T>(h: Heap<T>, kids: Kids, rank: map<nat, nat>, n: nat, k: nat, h1: Heap<T>, kids1: Kids,
          rank1: map<nat, nat>, h2: Heap<T>, kids2: Kids, rank2: map<nat, nat>)
    requires Linked(h, kids) && Ranked(h, rank) && n in h && k < |kids[n]|
    requires Thinned(h, kids, rank, n, k, h1, kids1, rank1)
    requires n in h1 && kids[n][k] in h1 && Pruned(h1, kids1, rank1, kids[n][k], h2, kids2, rank2)
    ensures Thinned(h, kids, rank, n, k + 1, h2, kids2, rank2) && n in h2
  {
    var c := kids[n][k];
    ThinnedBelow(h, kids, rank, n, k, h1, kids1, rank1);
    ChildBelow(h, kids, rank, n, k);
    NotBelowChild(h, kids, rank, n, k);
    assert KidsOf(h1, kids1[n], n);
    assert kids1[n] == kids[n][k..];
    WithoutFirst(kids1[n], c);
    assert kids[n][k..][1..] == kids[n][k + 1..];
  }

  /** What a node's own child list says about the next child to delete. */
  lemma NextChild<T>(h: Heap<T>, kids: Kids, rank: map<nat, nat>, n: nat, k: nat, h1: Heap<T>, kids1: Kids,
          rank1: map<nat, nat>)
    requires Linked(h, kids) && Ranked(h, rank) && n in h && k < |kids[n]|
    requires Thinned(h, kids, rank, n, k, h1, kids1, rank1) && n in h1
    ensures var c := kids[n][k];
            && c in h1 && h1[n].firstChild == Some(c) && h1[c].nextSibling == Nth(kids[n], k + 1)
            && Below(h1, rank1, c) < Below(h, rank, n)
  {
    assert KidsOf(h1, kids1[n], n);
    assert kids1[n] == kids[n][k..];
    assert h1[kids1[n][0]].nextSibling == After(kids1[n], 0);
    ThinnedBelow(h, kids, rank, n, k, h1, kids1, rank1);
    ChildBelow(h, kids, rank, n, k);
  }

  /** Without its children, a node is unlinked from its parent and goes. */
  lemma PrunedAtEnd<T>(h: Heap<T>, kids: Kids, rank: map<nat, nat>, n: nat, h1: Heap<T>, kids1: Kids,
          rank1: map<nat, nat>, h2: Heap<T>, kids2: Kids)
    requires Linked(h, kids) && Ranked(h, rank) && n in h
    requires Thinned(h, kids, rank, n, |kids[n]|, h1, kids1, rank1) && n in h1
    requires Linked(h2, kids2) && Ranked(h2, rank1) && UnlinkedFrom(h1, h2, n)
    requires kids2 == match h1[n].parent
                      case None => kids1
                      case Some(p) => kids1[p := Without(if p in kids1 then kids1[p] else [], n)]
    requires h1[n].parent.Some? ==> h1[n].parent.value != n
    ensures Pruned(h, kids, rank, n, h2 - {n}, kids2 - {n}, rank1 - {n})
    ensures Linked(h2 - {n}, kids2 - {n}) && Ranked(h2 - {n}, rank1 - {n})
  {
    GoneAtEnd(h, kids, rank, n);
    assert Under(h, rank, n, n);
    assert kids2[n] == [];
    RemoveLinked(h2, kids2, rank1, n);
  }

  /** Two lists of nodes without common members make one without repeats. */
  lemma NoRepeatsConcat(a: seq<nat>, b: seq<nat>)
    requires NoRepeats(a) && NoRepeats(b) && forall x :: x in a ==> x !in b
    ensures NoRepeats(a + b)
  {
    forall i, j | 0 <= i < j < |a + b|
      ensures (a + b)[i] != (a + b)[j]
    {
      if i < |a| <= j {
        assert (a + b)[i] in a && (a + b)[j] in b;
      }
    }
  }

  /** The child lists after `child` has moved from its old parent to the new one. */
  ghost function Adopted(kids: Kids, oldParent: Option<nat>, parent: nat, child: nat): Kids
  {
    var without := if oldParent.Some? && oldParent.value in kids
        then kids[oldParent.value := Without(kids[oldParent.value], child)] else kids;
    if parent in without then without[parent := without[parent] + [child]] else without
  }

  /** The list that a detached child is appended to. */
  lemma AppendList<T>(h: Heap<T>, kids: Kids, p: nat, child: nat)
    requires Linked(h, kids) && p in h && child in h && h[child].parent.None?
    ensures h[p].firstChild == Head(kids[p])
    ensures forall j :: 0 <= j < |kids[p]| ==> kids[p][j] in h && kids[p][j] != child
    ensures forall j :: 0 <= j < |kids[p]| ==> kids[p][j] in h && h[kids[p][j]].nextSibling == After(kids[p], j)
  {
    assert KidsOf(h, kids[p], p);
  }

  lemma AppendedNodes<T>(h0: Heap<T>, h: Heap<T>, kids: Kids, p: nat, child: nat)
    requires Linked(h, kids) && p in h && child in h && h[child].parent.None? && UnlinkedFrom(h0, h, child)
    ensures kids[p] != [] ==> kids[p][|kids[p]| - 1] in h
    ensures var h' := Append(h, kids[p], p, child);
            && h'.Keys == h0.Keys && (forall m :: m in h' ==> h'[m].data == h0[m].data)
            && (forall m :: m in h' ==> h'[m].parent == if m == child then Some(p) else h0[m].parent)
  {
    AppendLinked(h, kids, p, child);
    hide Linked;
    hide Append;
    forall m | m in h
      ensures var h' := Append(h, kids[p], p, child);
              h'[m].data == h[m].data && h'[m].parent == if m == child then Some(p) else h[m].parent
    {
      AppendParent(h, kids, p, child, m);
    }
  }

  lemma AppendedRanks<T>(h0: Heap<T>, h: Heap<T>, kids: Kids, rank: map<nat, nat>, p: nat, child: nat)
    requires Linked(h, kids) && Ranked(h0, rank) && Ranked(h, rank) && p in h && child in h && h[child].parent.None?
    requires UnlinkedFrom(h0, h, child)
    ensures kids[p] != [] ==> kids[p][|kids[p]| - 1] in h
    ensures var h' := Append(h, kids[p], p, child);
            && ((exists ranks :: Ranked(h', ranks)) <==> !Under(h0, rank, p, child))
            && (!Under(h0, rank, p, child) ==> Ranked(h', Shifted(h, rank, p, child)))
            && (Under(h0, rank, p, child) ==> !Ranked(h', rank))
  {
    UnderSame(h0, h, rank, rank, p, child);
    AppendAcyclicIff(h, kids, rank, p, child);
    if !Under(h, rank, p, child) {
      hide Append;
      AppendRanked(h, kids, rank, p, child);
    }
  }

  lemma NthChild(ks: seq<nat>, k: nat)
    requires k <= |ks|
    ensures Nth(ks, k).Some? <==> k < |ks|
    ensures k < |ks| ==> Nth(ks, k) == Some(ks[k])
  {
  }

  lemma DeleteStart<T>(h: Heap<T>, kids: Kids, rank: map<nat, nat>, n: nat)
    requires Linked(h, kids) && Ranked(h, rank) && n in h
    ensures n in kids && h[n].firstChild == Nth(kids[n], 0)
    ensures Thinned(h, kids, rank, n, 0, h, kids, rank) && Lists([], GoneAfter(h, kids, rank, n, 0))
  {
    assert KidsOf(h, kids[n], n);
    assert kids[n][0..] == kids[n];
  }

  /** The sequence lists the set, each member once. */
  ghost predicate Lists(g: seq<nat>, s: set<nat>)
  {
    NoRepeats(g) && forall x :: x in g <==> x in s
  }

  /** The nodes given back for one more child are new ones. */
  lemma GoneStep<T>(h: Heap<T>, kids: Kids, rank: map<nat, nat>, n: nat, k: nat, h1: Heap<T>, kids1: Kids,
          rank1: map<nat, nat>, gone: seq<nat>, g: seq<nat>)
    requires Linked(h, kids) && Ranked(h, rank) && n in h && k < |kids[n]|
    requires Thinned(h, kids, rank, n, k, h1, kids1, rank1)
    requires Lists(gone, GoneAfter(h, kids, rank, n, k)) && Lists(g, Below(h1, rank1, kids[n][k]))
    ensures Lists(gone + g, GoneAfter(h, kids, rank, n, k + 1))
  {
    ThinnedBelow(h, kids, rank, n, k, h1, kids1, rank1);
    assert forall x :: x in g ==> x in h1;
    assert forall x :: x in gone ==> x !in h1;
    hide Below;
    NoRepeatsConcat(gone, g);
  }

  /** The last node given back is `n` itself. */
  lemma GoneLast<T>(h: Heap<T>, kids: Kids, rank: map<nat, nat>, n: nat, gone: seq<nat>)
    requires Linked(h, kids) && Ranked(h, rank) && n in h && Lists(gone, GoneAfter(h, kids, rank, n, |kids[n]|))
    ensures Lists(gone + [n], Below(h, rank, n))
  {
    GoneAtEnd(h, kids, rank, n);
    assert Under(h, rank, n, n);
    NoRepeatsConcat(gone, [n]);
  }

  /** The parent of the node being deleted, once its children are gone. */
  lemma ThinnedParent<T>(h: Heap<T>, kids: Kids, rank: map<nat, nat>, n: nat, k: nat, h1: Heap<T>, kids1: Kids,
          rank1: map<nat, nat>)
    requires Linked(h, kids) && Ranked(h, rank) && n in h && k <= |kids[n]|
    requires Thinned(h, kids, rank, n, k, h1, kids1, rank1) && n in h1
    ensures h1[n].parent.Some? ==> h1[n].parent.value != n && h1[n].parent.value in kids1
    ensures h1[n].parent.None? ==> UnlinkedFrom(h1, h1, n)
  {
    assert BelowParent(h1, rank1, n) && ChildOfParent(h1, kids1, n);
  }

  // ---------------------------------------------------------------------------------------------
  // Traversal

  /** A node, then its children's subtrees in order. */
  ghost function Preorder<T>(h: Heap<T>, kids: Kids, rank: map<nat, nat>, n: nat): seq<nat>
    requires Linked(h, kids) && Ranked(h, rank) && n in h
    decreases Below(h, rank, n), |kids[n]| + 1
  {
    [n] + PreorderFrom(h, kids, rank, n, 0)
  }

  /** The subtrees of `n`'s children from the `k`-th on. */
  ghost function PreorderFrom<T>(h: Heap<T>, kids: Kids, rank: map<nat, nat>, n: nat, k: nat): seq<nat>
    requires Linked(h, kids) && Ranked(h, rank) && n in h && k <= |kids[n]|
    decreases Below(h, rank, n), |kids[n]| - k
  {
    if k == |kids[n]| then []
    else
      ChildBelow(h, kids, rank, n, k);
      Preorder(h, kids, rank, kids[n][k]) + PreorderFrom(h, kids, rank, n, k + 1)
  }

  /** The `k`-th child and the earlier ones have nothing below them in common. */
  lemma ChildAfterGone<T>(h: Heap<T>, kids: Kids, rank: map<nat, nat>, n: nat, k: nat)
    requires Linked(h, kids) && Ranked(h, rank) && n in h && k < |kids[n]|
    ensures kids[n][k] in h && Below(h, rank, kids[n][k]) !! GoneAfter(h, kids, rank, n, k)
    ensures Below(h, rank, kids[n][k]) <= Below(h, rank, n) - {n}
  {
    ChildBelow(h, kids, rank, n, k);
    NotBelowChild(h, kids, rank, n, k);
    forall x | x in GoneAfter(h, kids, rank, n, k)
      ensures x !in Below(h, rank, kids[n][k])
    {
      var j := InGone(h, kids, rank, n, k, x);
      ChildBelow(h, kids, rank, n, j);
      DifferentKids(h, kids, n, j, k);
      SiblingsApart(h, rank, kids[n][j], kids[n][k], x);
    }
  }

  lemma {:induction false} PreorderFromLists<T>(h: Heap<T>, kids: Kids, rank: map<nat, nat>, n: nat, k: nat)
    requires Linked(h, kids) && Ranked(h, rank) && n in h && k <= |kids[n]|
    ensures Lists(PreorderFrom(h, kids, rank, n, k), Below(h, rank, n) - {n} - GoneAfter(h, kids, rank, n, k))
    decreases Below(h, rank, n), |kids[n]| - k
  {
    assert n in kids;
    if k == |kids[n]| {
      GoneAtEnd(h, kids, rank, n);
    } else {
      ChildBelow(h, kids, rank, n, k);
      ChildAfterGone(h, kids, rank, n, k);
      PreorderLists(h, kids, rank, kids[n][k]);
      PreorderFromLists(h, kids, rank, n, k + 1);
      hide Linked;
      hide Ranked;
      hide Below;
      NoRepeatsConcat(Preorder(h, kids, rank, kids[n][k]), PreorderFrom(h, kids, rank, n, k + 1));
    }
  }

  /** The traversal meets everything below a node, once. */
  lemma {:induction false} PreorderLists<T>(h: Heap<T>, kids: Kids, rank: map<nat, nat>, n: nat)
    requires Linked(h, kids) && Ranked(h, rank) && n in h
    ensures Lists(Preorder(h, kids, rank, n), Below(h, rank, n)) && Preorder(h, kids, rank, n)[0] == n
    decreases Below(h, rank, n), |kids[n]| + 1
  {
    assert n in kids;
    PreorderFromLists(h, kids, rank, n, 0);
    assert Under(h, rank, n, n);
    NoRepeatsConcat([n], PreorderFrom(h, kids, rank, n, 0));
  }

  /** The subtree of the `i`-th child is one part of the traversal of the children from the `k`-th on. */
  lemma {:induction false} ChildPart<T>(h: Heap<T>, kids: Kids, rank: map<nat, nat>, n: nat, k: nat, i: nat)
    returns (before: seq<nat>)
    requires Linked(h, kids) && Ranked(h, rank) && n in h && k <= i < |kids[n]|
    ensures kids[n][i] in h
    ensures PreorderFrom(h, kids, rank, n, k)
         == before + Preorder(h, kids, rank, kids[n][i]) + PreorderFrom(h, kids, rank, n, i + 1)
    decreases i - k
  {
    ChildBelow(h, kids, rank, n, k);
    ChildBelow(h, kids, rank, n, i);
    if k == i {
      before := [];
    } else {
      var later := ChildPart(h, kids, rank, n, k + 1, i);
      hide Linked;
      hide Ranked;
      before := Preorder(h, kids, rank, kids[n][k]) + later;
    }
  }

  /** The traversal visits a node, and the whole subtree of each child before that of any later one. */
  lemma SiblingsInOrder<T>(h: Heap<T>, kids: Kids, rank: map<nat, nat>, n: nat, i: nat, j: nat)
    returns (before: seq<nat>, between: seq<nat>, behind: seq<nat>)
    requires Linked(h, kids) && Ranked(h, rank) && n in h && i < j < |kids[n]|
    ensures kids[n][i] in h && kids[n][j] in h
    ensures Preorder(h, kids, rank, n)
         == [n] + before + Preorder(h, kids, rank, kids[n][i]) + between + Preorder(h, kids, rank, kids[n][j]) + behind
  {
    before := ChildPart(h, kids, rank, n, 0, i);
    between := ChildPart(h, kids, rank, n, i + 1, j);
    behind := PreorderFrom(h, kids, rank, n, j + 1);
  }

  lemma ChildList<T>(h: Heap<T>, kids: Kids, n: nat)
    requires Linked(h, kids) && n in h
    ensures n in kids && h[n].firstChild == Nth(kids[n], 0)
    ensures forall k :: 0 <= k < |kids[n]| ==> kids[n][k] in h && h[kids[n][k]].nextSibling == Nth(kids[n], k + 1)
  {
    assert KidsOf(h, kids[n], n);
    forall k | 0 <= k < |kids[n]|
      ensures kids[n][k] in h && h[kids[n][k]].nextSibling == Nth(kids[n], k + 1)
    {
      assert h[kids[n][k]].nextSibling == After(kids[n], k);
    }
  }

  lemma DataChangedKids<T>(h: Heap<T>, kids: Kids, n: nat, data: T, m: nat)
    requires Linked(h, kids) && n in h && m in h
    ensures KidsOf(h[n := h[n].(data := data)], kids[m], m)
  {
    assert KidsOf(h, kids[m], m);
    KidsSame(h, h[n := h[n].(data := data)], kids[m], m);
  }

  /** The data has no part in the shape of the tree. */
  lemma DataChanged<T>(h: Heap<T>, kids: Kids, rank: map<nat, nat>, n: nat, data: T)
    requires Linked(h, kids) && Ranked(h, rank) && n in h
    ensures Linked(h[n := h[n].(data := data)], kids) && Ranked(h[n := h[n].(data := data)], rank)
  {
    hide KidsOf;
    var h' := h[n := h[n].(data := data)];
    forall m | m in h'
      ensures KidsOf(h', kids[m], m) && ChildOfParent(h', kids, m) && BelowParent(h', rank, m)
    {
      DataChangedKids(h, kids, n, data, m);
      assert ChildOfParent(h, kids, m) && BelowParent(h, rank, m);
    }
  }

  /** Every node lies below one without a parent. */
  lemma {:induction false} RootAbove<T>(h: Heap<T>, rank: map<nat, nat>, x: nat) returns (t: nat)
    requires Ranked(h, rank) && x in h
    ensures t in h && h[t].parent.None? && Under(h, rank, x, t)
    decreases rank[x]
  {
    assert BelowParent(h, rank, x);
    if h[x].parent.None? {
      t := x;
    } else {
      t := RootAbove(h, rank, h[x].parent.value);
    }
  }
}
