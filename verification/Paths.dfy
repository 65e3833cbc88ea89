/** Splitting a path into its parts (src/kernel/lib/path_util.cpp). */
module Paths {
  import opened Options

  const MAX_TOKENS: nat := 16

  /** How many characters from the front on are no slash. */
  function WordLen(s: string): (n: nat)
    ensures n <= |s|
    ensures forall i :: 0 <= i < n ==> s[i] != '/'
    ensures n < |s| ==> s[n] == '/'
  {
    if s == "" || s[0] == '/' then 0 else 1 + WordLen(s[1..])
  }

  /** A name: not empty and without slashes. */
  predicate IsWord(s: string) { s != "" && '/' !in s }

  /** The names in a path: the longest stretches between slashes. */
  function Segments(s: string): seq<string>
    decreases |s|
  {
    if s == "" then []
    else if s[0] == '/' then Segments(s[1..])
    else [s[..WordLen(s)]] + Segments(s[WordLen(s)..])
  }

  function Take<T>(s: seq<T>, n: nat): seq<T> { if |s| <= n then s else s[..n] }

  /** All tokens of a path: a leading slash is one, and so is each name. */
  function Tokens(path: string): seq<string>
  {
    if path != "" && path[0] == '/' then ["/"] + Segments(path[1..]) else Segments(path)
  }

  /** A path without a leading slash does not have one as its first token. */
  lemma FirstToken(path: string)
    requires path != "" && path[0] != '/'
    ensures Tokens(path) != [] && Tokens(path)[0] != "/"
  {
  }

  lemma SegmentsAt(path: string, i: nat)
    requires i < |path| && path[i] == '/'
    ensures Segments(path[i..]) == Segments(path[i + 1..])
  {
    assert path[i..][1..] == path[i + 1..];
  }

  lemma SegmentsWord(path: string, i: nat, j: nat)
    requires i < j <= |path| && (j < |path| ==> path[j] == '/') && forall k :: i <= k < j ==> path[k] != '/'
    ensures Segments(path[i..]) == [path[i..j]] + Segments(path[j..])
  {
    WordLenIs(path[i..], j - i);
    assert path[i..][..j - i] == path[i..j] && path[i..][j - i..] == path[j..];
  }

  lemma WordLenIs(s: string, n: nat)
    requires n <= |s| && (n < |s| ==> s[n] == '/') && forall k :: 0 <= k < n ==> s[k] != '/'
    ensures WordLen(s) == n
  {
  }

  lemma SegmentsOfNothing()
    ensures Segments("") == []
  {
  }

  /** The tokens of a path, of which there is room for sixteen; nothing for an empty path. */
  method SplitPathTokens(path: string) returns (tokens: Option<seq<string>>)
    ensures tokens == if path == "" then None else Some(Take(Tokens(path), MAX_TOKENS))
  {
    hide Segments;
    if path == "" { return None; }
    SegmentsOfNothing();
    var found: seq<string> := [];
    var i := 0;
    if path[0] == '/' {
      found := ["/"];
      i := 1;
    }
    assert path[0..] == path;
    while i < |path| && |found| < MAX_TOKENS
      invariant i <= |path| && |found| <= MAX_TOKENS
      invariant found + Segments(path[i..]) == Tokens(path)
      decreases |path| - i
    {
      ghost var i0 := i;
      while i < |path| && path[i] == '/'
        invariant i0 <= i <= |path| && Segments(path[i..]) == Segments(path[i0..])
      {
        SegmentsAt(path, i);
        i := i + 1;
      }
      var start := i;
      while i < |path| && path[i] != '/'
        invariant start <= i <= |path| && forall k :: start <= k < i ==> path[k] != '/'
      {
        i := i + 1;
      }
      if i > start {
        SegmentsWord(path, start, i);
        assert found + ([path[start..i]] + Segments(path[i..])) == found + [path[start..i]] + Segments(path[i..]);
        found := found + [path[start..i]];
      }
    }
    if i == |path| {
      assert path[i..] == "";
      assert found + [] == found;
    } else {
      var rest := Segments(path[i..]);
      assert (found + rest)[..MAX_TOKENS] == found;
      assert rest == [] ==> found + rest == found;
    }
    return Some(found);
  }

  // ---------------------------------------------------------------------------------------------
  // Putting paths together

  /** A slash ends one name and starts the next. */
  lemma {:induction false} SegmentsConcat(a: string, b: string)
    ensures Segments(a + "/" + b) == Segments(a) + Segments(b)
    decreases |a|
  {
    var s := a + "/" + b;
    if a == "" {
      assert s == "/" + b && s[1..] == b;
    } else if a[0] == '/' {
      assert s[1..] == a[1..] + "/" + b;
      SegmentsConcat(a[1..], b);
    } else {
      var n := WordLen(a);
      WordLenIs(s, n);
      assert s[..n] == a[..n] && s[n..] == a[n..] + "/" + b;
      SegmentsConcat(a[n..], b);
    }
  }

  lemma SegmentsOfWord(w: string)
    requires IsWord(w)
    ensures Segments(w) == [w]
  {
    WordLenIs(w, |w|);
    assert w[..|w|] == w && w[|w|..] == "";
  }

  function Slashes(n: nat): string { if n == 0 then "" else "/" + Slashes(n - 1) }

  /** The names, each behind one slash and `gaps` more. */
  function Spread(names: seq<string>, gaps: seq<nat>): string
    requires |gaps| == |names|
  {
    if names == [] then "" else Slashes(gaps[0]) + "/" + names[0] + Spread(names[1..], gaps[1..])
  }

  lemma {:induction false} SegmentsOfSlashes(n: nat, s: string)
    ensures Segments(Slashes(n) + s) == Segments(s)
  {
    if n == 0 {
      assert "" + s == s;
    } else {
      assert (Slashes(n) + s)[1..] == Slashes(n - 1) + s;
      SegmentsOfSlashes(n - 1, s);
    }
  }

  /** One name in front of more path. */
  lemma WordThenRest(w: string, rest: string)
    requires IsWord(w) && (rest != "" ==> rest[0] == '/')
    ensures Segments(w + rest) == [w] + Segments(rest)
  {
    SegmentsOfWord(w);
    if rest == "" {
      assert w + rest == w;
    } else {
      assert rest == "/" + rest[1..] && w + rest == w + "/" + rest[1..];
      SegmentsConcat(w, rest[1..]);
    }
  }

  /** Repeated and trailing slashes do not matter: the names come back in order. */
  lemma {:induction false} SpreadSegments(names: seq<string>, gaps: seq<nat>, trailing: nat)
    requires |gaps| == |names| && forall i :: 0 <= i < |names| ==> IsWord(names[i])
    ensures Segments(Spread(names, gaps) + Slashes(trailing)) == names
  {
    var tail := Slashes(trailing);
    if names == [] {
      SegmentsOfSlashes(trailing, "");
      SegmentsOfNothing();
      assert "" + tail == tail && tail + "" == tail;
    } else {
      hide Segments;
      hide Slashes;
      var rest := Spread(names[1..], gaps[1..]) + tail;
      SpreadSegments(names[1..], gaps[1..], trailing);
      assert Spread(names, gaps) + tail == Slashes(gaps[0]) + ("/" + (names[0] + rest));
      SegmentsOfSlashes(gaps[0], "/" + (names[0] + rest));
      var s := "/" + (names[0] + rest);
      SegmentsAt(s, 0);
      assert s[0..] == s && s[1..] == names[0] + rest;
      RestStartsWithSlash(names[1..], gaps[1..], trailing);
      WordThenRest(names[0], rest);
      assert [names[0]] + names[1..] == names;
    }
  }

  lemma RestStartsWithSlash(names: seq<string>, gaps: seq<nat>, trailing: nat)
    requires |gaps| == |names|
    ensures var s := Spread(names, gaps) + Slashes(trailing); s != "" ==> s[0] == '/'
  {
    if names != [] {
      assert (Slashes(gaps[0]) + "/")[0] == '/';
    }
  }

  /** What is split off such a path: the leading slash and the names, as far as there is room. */
  lemma SpreadTokens(names: seq<string>, gaps: seq<nat>, trailing: nat)
    requires |gaps| == |names| && forall i :: 0 <= i < |names| ==> IsWord(names[i])
    requires names != [] || trailing > 0
    ensures Tokens(Spread(names, gaps) + Slashes(trailing)) == ["/"] + names
  {
    var s := Spread(names, gaps) + Slashes(trailing);
    RestStartsWithSlash(names, gaps, trailing);
    SpreadSegments(names, gaps, trailing);
    assert s != "";
  }
}
