/** What becomes of the entries of a directory block, told by names, sizes and bytes. */
module DirNames {
  import opened Words
  import opened BlockStore
  import opened DirBlock

  // ---------------------------------------------------------------------------------------------
  // Names

  /** The part of a name that counts ends before its first NUL. */
  lemma {:induction false} CStringIs(s: seq<byte>)
    ensures |CString(s)| <= |s| && CString(s) == s[..|CString(s)|] && NulFree(CString(s))
    ensures |CString(s)| < |s| ==> s[|CString(s)|] == 0
  {
    if s != [] && s[0] != 0 {
      CStringIs(s[1..]);
    }
  }

  ghost predicate NamesNulFree(es: seq<Dirent>)
  {
    forall k :: 0 <= k < |es| ==> NulFree(es[k].name)
  }

  /** Names without NUL match if they are the same. */
  lemma MatchesIff(e: Dirent, name: seq<byte>, kind: byte)
    requires NulFree(e.name) && NulFree(name)
    ensures Matches(e, name, kind) <==> e.inode != 0 && e.name == name && e.kind == kind
  {
    CStringIs(e.name);
    CStringIs(name);
  }

  /** The triple is that of a live entry of this name and kind. */
  predicate Named(t: (uint32, byte, seq<byte>), name: seq<byte>, kind: byte) { t.1 == kind && t.2 == name }

  lemma {:induction false} NoneNamed(es: seq<Dirent>, name: seq<byte>, kind: byte)
    requires NamesNulFree(es) && NulFree(name) && forall k :: 0 <= k < |es| ==> !Matches(es[k], name, kind)
    ensures forall k :: 0 <= k < |Live(es)| ==> !Named(Live(es)[k], name, kind)
  {
    if es != [] {
      MatchesIff(es[0], name, kind);
      NoneNamed(es[1..], name, kind);
    }
  }

  /** The entry that is found is the first live one of this name and kind. */
  lemma FirstNamed(es: seq<Dirent>, name: seq<byte>, kind: byte)
    requires NamesNulFree(es) && NulFree(name)
    ensures var j, live := FirstMatch(es, name, kind), Live(es);
            if j == |es| then forall k :: 0 <= k < |live| ==> !Named(live[k], name, kind)
            else
              var k := |Live(es[..j])|;
              && k < |live| && Named(live[k], name, kind)
              && (forall l :: 0 <= l < k ==> !Named(live[l], name, kind))
              && Live(es[..j]) == live[..k] && Live(es[j + 1..]) == live[k + 1..]
  {
    hide CString;
    var j := FirstMatch(es, name, kind);
    hide FirstMatch;
    if j == |es| {
      NoneNamed(es, name, kind);
    } else {
      NoneNamed(es[..j], name, kind);
      MatchesIff(es[j], name, kind);
      LiveAround(es, j);
      var k, live := |Live(es[..j])|, Live(es);
      hide Live;
      assert live[..k] == Live(es[..j]) && live[k + 1..] == Live(es[j + 1..]);
      assert forall l :: 0 <= l < k ==> live[l] == Live(es[..j])[l];
    }
  }

  lemma LiveAround(es: seq<Dirent>, j: nat)
    requires j < |es| && es[j].inode != 0
    ensures Live(es) == Live(es[..j]) + [(es[j].inode, es[j].kind, es[j].name)] + Live(es[j + 1..])
  {
    hide Live;
    var a, c, e := es[..j], es[j + 1..], es[j];
    assert es == a + ([e] + c);
    LiveConcat(a, [e] + c);
    LiveConcat([e], c);
    LiveOne(e);
    assert Live(a) + ([(e.inode, e.kind, e.name)] + Live(c)) == Live(a) + [(e.inode, e.kind, e.name)] + Live(c);
  }

  lemma LiveOne(e: Dirent)
    requires e.inode != 0
    ensures Live([e]) == [(e.inode, e.kind, e.name)]
  {
    assert [e][1..] == [];
  }

  /**
   Removing by name and kind finds an entry exactly if there is a live one, and takes exactly the first of them out of
   the live ones; every entry of another name or kind stays.
   */
  lemma RemovesByName(es: seq<Dirent>, name: seq<byte>, kind: byte)
    requires NamesNulFree(es) && NulFree(name)
    ensures var j, live := FirstMatch(es, name, kind), Live(es);
            && (j < |es| <==> exists k :: 0 <= k < |live| && Named(live[k], name, kind))
            && (j < |es| ==>
                  var live' := Live(RemovedEntries(es, j));
                  && (exists k :: 0 <= k < |live| && Named(live[k], name, kind) && live' == live[..k] + live[k + 1..]
                                  && forall l :: 0 <= l < k ==> !Named(live[l], name, kind))
                  && forall t :: !Named(t, name, kind) ==> multiset(live')[t] == multiset(live)[t])
  {
    hide Live;
    hide FirstMatch;
    hide Matches;
    hide RemovedEntries;
    hide NamesNulFree;
    hide NulFree;
    var j, live := FirstMatch(es, name, kind), Live(es);
    FirstNamed(es, name, kind);
    if j < |es| {
      RemoveLive(es, j);
      var k := |Live(es[..j])|;
      assert live == live[..k] + [live[k]] + live[k + 1..];
    }
  }

  /** The bytes of a removed entry go to the one before it; only the first of a block stays behind as unused. */
  lemma RemovedSizes(es: seq<Dirent>, j: nat)
    requires j < |es|
    ensures var es' := RemovedEntries(es, j);
            if j == 0 then es' == [es[0].(inode := 0)] + es[1..]
            else && |es'| == |es| - 1 && es'[j - 1] == es[j - 1].(size := es[j - 1].size + es[j].size)
                 && es'[..j - 1] == es[..j - 1] && es'[j..] == es[j + 1..]
  {
  }

  // ---------------------------------------------------------------------------------------------
  // Sizes

  /** The least record length is the next multiple of four behind the eight bytes of the header and the name. */
  lemma RecLenLeast(nameLen: nat)
    ensures RecLen(nameLen) % 4 == 0 && 8 + nameLen <= RecLen(nameLen) < 8 + nameLen + 4
  {
  }

  /** The bytes that an entry needs as it stands. */
  function Needed(e: Dirent): nat { if e.inode == 0 then 0 else RecLen(|e.name|) }

  /** A name goes into the first entry that can hold it besides what it holds already. */
  lemma InsertsIff(es: seq<Dirent>, nameLen: nat)
    ensures var i := FirstFit(es, RecLen(nameLen));
            && (i < |es| <==> exists k :: 0 <= k < |es| && es[k].size >= Needed(es[k]) + RecLen(nameLen))
            && (i < |es| ==> es[i].size >= Needed(es[i]) + RecLen(nameLen))
            && forall k :: 0 <= k < i ==> es[k].size < Needed(es[k]) + RecLen(nameLen)
  {
  }

  /** A used entry keeps what it needs, the new one gets what it needs, and an unused one takes what is left over. */
  lemma InsertedSizes(es: seq<Dirent>, i: nat, inode: uint32, kind: byte, name: seq<byte>)
    requires i < |es| && LeftOver(es[i], name) >= 0
    ensures var es', p := InsertedEntries(es, i, inode, kind, name), if es[i].inode == 0 then i else i + 1;
            var rest := es[i].size - Needed(es[i]) - RecLen(|name|);
            && p < |es'| && es'[..i] == es[..i] && (p > i ==> es'[i] == es[i].(size := Needed(es[i])))
            && es'[p] == Dirent(inode, RecLen(|name|), kind, name)
            && (if rest == 0 then es'[p + 1..] == es[i + 1..]
                else p + 1 < |es'| && es'[p + 1] == Dirent(0, rest, 0, []) && es'[p + 2..] == es[i + 1..])
  {
  }

  // ---------------------------------------------------------------------------------------------
  // Bytes

  /** The places of the fields of an entry: inode number, record length, length of the name, kind, and the name. */
  lemma EntryBytes(b: seq<byte>, o: nat, e: Dirent)
    requires EntryAt(b, o, e)
    ensures o + 8 + |e.name| <= |b|
    ensures e.inode == (b[o] as int) + 0x100 * (b[o + 1] as int) + 0x1_0000 * (b[o + 2] as int)
                       + 0x100_0000 * (b[o + 3] as int)
    ensures e.size == (b[o + 4] as int) + 0x100 * (b[o + 5] as int)
    ensures |e.name| == b[o + 6] && e.kind == b[o + 7] && b[o + 8..o + 8 + |e.name|] == e.name
  {
    FieldsOfEntry(b, o, e);
    assert b[o..o + 4][0] == b[o] && b[o..o + 4][1] == b[o + 1];
    assert b[o..o + 4][2] == b[o + 2] && b[o..o + 4][3] == b[o + 3];
  }
}
