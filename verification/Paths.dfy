/** Names as paths (tools/zz9k-archive.c): what cleaning a name keeps, and which
    names are safe to write to. */
module Paths {
  import opened Words
  import opened Options
  import opened ArchiveNames
  import opened TarHeader

  /** The components between the slashes, empty ones included. */
  function Split(s: seq<uint8>): (cs: seq<seq<uint8>>)
    ensures |cs| >= 1
  {
    if s == [] then [[]]
    else if s[0] == SLASH then [[]] + Split(s[1..])
    else [[s[0]] + Split(s[1..])[0]] + Split(s[1..])[1..]
  }

  /** The components that lead somewhere: not the empty ones and not ".". */
  function Kept(cs: seq<seq<uint8>>): seq<seq<uint8>> {
    if cs == [] then []
    else if cs[0] == [] || cs[0] == [DOT] then Kept(cs[1..])
    else [cs[0]] + Kept(cs[1..])
  }

  function Steps(s: seq<uint8>): seq<seq<uint8>> {
    Kept(Split(s))
  }

  // ----- cleaning -----

  lemma KeptOfSkipped(c: seq<uint8>, cs: seq<seq<uint8>>)
    requires c == [] || c == [DOT]
    ensures Kept([c] + cs) == Kept(cs)
  {
    assert ([c] + cs)[1..] == cs;
  }

  lemma SplitStep(c: uint8, s: seq<uint8>)
    ensures Split([c] + s) == if c == SLASH then [[]] + Split(s) else [[c] + Split(s)[0]] + Split(s)[1..]
  {
    assert ([c] + s)[1..] == s;
  }

  lemma SplitSlash(s: seq<uint8>)
    ensures Split([SLASH] + s) == [[]] + Split(s)
  {
    SplitStep(SLASH, s);
  }

  lemma SplitDotSlash(s: seq<uint8>)
    ensures Split([DOT, SLASH] + s) == [[DOT]] + Split(s)
  {
    SplitSlash(s);
    assert [DOT, SLASH] + s == [DOT] + ([SLASH] + s);
    assert ([DOT] + ([SLASH] + s))[1..] == [SLASH] + s;
    assert [DOT] + [] == [DOT];
  }

  /** Collapsing keeps the first component and the steps behind it. */
  lemma {:induction false} CollapseKeeps(s: seq<uint8>)
    ensures Split(Collapse(s))[0] == Split(s)[0]
    ensures Kept(Split(Collapse(s))[1..]) == Kept(Split(s)[1..])
    decreases |s|
  {
    hide Kept;
    if s == [] {
    } else if |s| >= 2 && s[0] == SLASH && s[1] == SLASH {
      CollapseKeeps(s[1..]);
      var t := s[2..];
      assert s == [SLASH] + ([SLASH] + t) && s[1..] == [SLASH] + t;
      SplitSlash(t);
      SplitSlash([SLASH] + t);
      assert Split(s)[1..] == [[]] + Split(t) && Split(s[1..])[1..] == Split(t);
      KeptOfSkipped([], Split(t));
    } else if |s| >= 3 && s[0] == SLASH && s[1] == DOT && s[2] == SLASH {
      CollapseKeeps(s[2..]);
      var t := s[3..];
      assert s == [SLASH] + ([DOT, SLASH] + t) && s[2..] == [SLASH] + t;
      SplitSlash(t);
      SplitDotSlash(t);
      SplitSlash([DOT, SLASH] + t);
      assert Split(s)[1..] == [[DOT]] + Split(t) && Split(s[2..])[1..] == Split(t);
      KeptOfSkipped([DOT], Split(t));
    } else {
      CollapseKeeps(s[1..]);
      var rest := Collapse(s[1..]);
      assert Collapse(s) == [s[0]] + rest && ([s[0]] + rest)[1..] == rest;
      if s[0] == SLASH {
        var a, b := Split(s[1..]), Split(rest);
        assert Split(s)[1..] == a && Split(Collapse(s))[1..] == b;
        SameFirst(a, b);
      }
    }
  }

  lemma SameFirst(a: seq<seq<uint8>>, b: seq<seq<uint8>>)
    requires a != [] && b != [] && a[0] == b[0] && Kept(a[1..]) == Kept(b[1..])
    ensures Kept(a) == Kept(b)
  {}

  lemma {:induction false} DropDotsKeeps(s: seq<uint8>)
    ensures Steps(DropDots(s)) == Steps(s) && Steps(DropAllDots(s)) == Steps(s)
  {
    if |s| >= 2 && s[0] == DOT && s[1] == SLASH {
      DropDotsKeeps(s[2..]);
      assert s == [DOT, SLASH] + s[2..];
      SplitDotSlash(s[2..]);
      KeptOfSkipped([DOT], Split(s[2..]));
    }
  }

  /** Cleaning a name keeps its steps. */
  lemma StripKeeps(s: seq<uint8>)
    ensures Steps(Strip(s)) == Steps(s)
  {
    hide Collapse, DropDots, Split;
    DropDotsKeeps(s);
    CollapseKeeps(DropDots(s));
    SameFirst(Split(DropDots(s)), Split(Collapse(DropDots(s))));
  }

  /** Normalizing keeps them too; only a name without steps is skipped. */
  lemma NormalizeKeeps(name: seq<uint8>)
    ensures Normalize(name).Some? ==> Steps(Normalize(name).value) == Steps(name)
    ensures Normalize(name).None? ==> Steps(name) == []
  {
    hide Strip, DropAllDots, DropDots, Steps;
    DropDotsKeeps(name);
    StripKeeps(DropAllDots(name));
    NoSteps();
  }

  lemma NoSteps()
    ensures Steps([]) == [] && Steps([DOT]) == []
  {
    var one: seq<uint8> := [DOT];
    assert one[1..] == [] && [DOT] + [] == [DOT];
    assert Split(one) == [[DOT] + Split([])[0]] + Split([])[1..];
  }

  /** Collapsing keeps a slash at the end, and adds none. */
  lemma {:induction false} CollapseEnd(s: seq<uint8>)
    ensures EndsWithSlash(Collapse(s)) <==> EndsWithSlash(s)
    decreases |s|
  {
    if s == [] {
    } else if |s| >= 2 && s[0] == SLASH && s[1] == SLASH {
      CollapseEnd(s[1..]);
    } else if |s| >= 3 && s[0] == SLASH && s[1] == DOT && s[2] == SLASH {
      CollapseEnd(s[2..]);
    } else {
      CollapseEnd(s[1..]);
      CollapseCleans(s[1..]);
      SameEnd(s[0], s[1..], Collapse(s[1..]));
      assert s == [s[0]] + s[1..];
    }
  }

  lemma SameEnd(c: uint8, a: seq<uint8>, b: seq<uint8>)
    requires (a == [] <==> b == []) && (EndsWithSlash(a) <==> EndsWithSlash(b))
    ensures EndsWithSlash([c] + a) <==> EndsWithSlash([c] + b)
  {}

  // ----- safe names -----

  predicate NoSlash(s: seq<uint8>) {
    forall i :: 0 <= i < |s| ==> s[i] != SLASH
  }

  /** The first component, up to the first slash. */
  lemma {:induction false} SplitFirst(s: seq<uint8>, n: nat)
    requires n <= |s| && NoSlash(s[..n]) && (n < |s| ==> s[n] == SLASH)
    ensures Split(s) == if n == |s| then [s] else [s[..n]] + Split(s[n + 1..])
  {
    if n > 0 {
      assert s[..n][0] == s[0] && s[1..][..n - 1] == s[..n][1..];
      SplitFirst(s[1..], n - 1);
      assert [s[0]] + s[1..][..n - 1] == s[..n];
      assert n < |s| ==> s[1..][n..] == s[n + 1..];
      assert s == [s[0]] + s[1..];
    }
  }

  /** Components a path may have: none is "." or "..", and only the last one may
      be empty. */
  predicate SafeSteps(cs: seq<seq<uint8>>) {
    forall i :: 0 <= i < |cs| ==> cs[i] != [DOT] && cs[i] != [DOT, DOT] && (cs[i] == [] ==> i == |cs| - 1)
  }

  /** No colon and no backslash. */
  predicate Plain(s: seq<uint8>) {
    forall i :: 0 <= i < |s| ==> s[i] != 0x3a && s[i] != 0x5c
  }

  lemma SafeMore(c: seq<uint8>, cs: seq<seq<uint8>>)
    requires cs != []
    ensures SafeSteps([c] + cs) <==> c != [DOT] && c != [DOT, DOT] && c != [] && SafeSteps(cs)
  {
    var all := [c] + cs;
    if SafeSteps(all) {
      assert all[0] == c;
      forall i | 0 <= i < |cs|
        ensures cs[i] != [DOT] && cs[i] != [DOT, DOT] && (cs[i] == [] ==> i == |cs| - 1)
      {
        assert all[i + 1] == cs[i];
      }
    }
  }

  lemma OneStep(s: seq<uint8>)
    ensures SafeSteps([s]) <==> s != [DOT] && s != [DOT, DOT]
  {
    assert [s][0] == s;
  }

  lemma NothingBefore(path: seq<uint8>, p: nat)
    requires p <= |path|
    ensures NoSlash(path[p..p])
  {}

  lemma OneMore(s: seq<uint8>, c: uint8)
    requires NoSlash(s) && c != SLASH
    ensures NoSlash(s + [c])
  {}

  /** The scan from a position within a component on. */
  lemma {:induction false} SafeFromIff(path: seq<uint8>, component: nat, p: nat)
    requires component <= p <= |path| && (path != [] || p > 0)
    requires NoSlash(path[component..p])
    ensures SafeFrom(path, component, p) <==> Plain(path[p..]) && SafeSteps(Split(path[component..]))
    decreases |path| - p
  {
    hide Split, SafeSteps, NoSlash;
    var s := path[component..];
    if p == |path| {
      assert s[..|s|] == s == path[component..p];
      SplitFirst(s, |s|);
      OneStep(s);
    } else if path[p] == 0x3a || path[p] == 0x5c {
      assert path[p..][0] == path[p];
    } else if path[p] == SLASH {
      var n := p - component;
      assert s[..n] == path[component..p] && s[n + 1..] == path[p + 1..];
      SplitFirst(s, n);
      SafeMore(s[..n], Split(path[p + 1..]));
      NothingBefore(path, p + 1);
      SafeFromIff(path, p + 1, p + 1);
      PlainStep(path, p);
    } else {
      assert path[component..p + 1] == path[component..p] + [path[p]];
      OneMore(path[component..p], path[p]);
      SafeFromIff(path, component, p + 1);
      PlainStep(path, p);
    }
  }

  lemma PlainStep(path: seq<uint8>, p: nat)
    requires p < |path| && path[p] != 0x3a && path[p] != 0x5c
    ensures Plain(path[p..]) <==> Plain(path[p + 1..])
  {
    var a, b := path[p..], path[p + 1..];
    assert a == [path[p]] + b;
    if Plain(a) {
      forall i | 0 <= i < |b|
        ensures b[i] != 0x3a && b[i] != 0x5c
      {
        assert a[i + 1] == b[i];
      }
    }
  }

  /** A name is safe exactly when it is not empty, has no colon and no backslash,
      and its components are safe: none leads up or stays, and none but the last
      is empty, so that it is relative. */
  lemma SafeIff(path: seq<uint8>)
    ensures Safe(path) <==> path != [] && Plain(path) && SafeSteps(Split(path))
  {
    if path != [] {
      assert path[0..] == path && path[0..0] == [];
      SafeFromIff(path, 0, 0);
      if path[0] == SLASH {
        SplitFirst(path, 0);
        SafeMore([], Split(path[1..]));
      }
    }
  }

  /** zz9k_archive_path_is_safe. */
  method PathIsSafe(path: seq<uint8>) returns (safe: bool)
    ensures safe <==> path != [] && Plain(path) && SafeSteps(Split(path))
    ensures safe == Safe(path)
  {
    SafeIff(path);
    if path == [] || path[0] == SLASH || path[0] == 0x5c {
      return false;
    }
    var component, p := 0, 0;
    while true
      invariant component <= p <= |path|
      invariant SafeFrom(path, component, p) == Safe(path)
      decreases |path| - p
    {
      if p < |path| && (path[p] == 0x3a || path[p] == 0x5c) {
        return false;
      }
      if p == |path| || path[p] == SLASH {
        if p == component {
          return p == |path| && p != 0;
        }
        if path[component..p] == [DOT] || path[component..p] == [DOT, DOT] {
          return false;
        }
        if p == |path| {
          return true;
        }
        component := p + 1;
      }
      p := p + 1;
    }
  }
}
