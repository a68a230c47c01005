/** The name helpers in place (tools/zz9k-archive.c): C strings that are moved
    and edited inside their buffer. */
module NameBuffer {
  import opened Words
  import opened ArchiveNames

  /** The buffer holds a zero byte. */
  predicate Terminated(b: seq<uint8>) {
    |CString(b)| < |b|
  }

  lemma {:induction false} CStringBytes(b: seq<uint8>)
    ensures b[..|CString(b)|] == CString(b)
    ensures forall i :: 0 <= i < |CString(b)| ==> b[i] != 0
    ensures NoZero(CString(b))
    ensures Terminated(b) ==> b[|CString(b)|] == 0
  {
    if b != [] && b[0] != 0 {
      CStringBytes(b[1..]);
      assert CString(b) == [b[0]] + CString(b[1..]);
    }
  }

  /** The bytes up to the first zero are the string. */
  lemma {:induction false} CStringUnique(b: seq<uint8>, n: nat)
    requires n <= |b| && (forall i :: 0 <= i < n ==> b[i] != 0) && (n == |b| || b[n] == 0)
    ensures CString(b) == b[..n]
  {
    if n > 0 {
      CStringUnique(b[1..], n - 1);
      assert b[..n] == [b[0]] + b[1..][..n - 1];
    }
  }

  lemma StringOfString(b: seq<uint8>)
    ensures CString(CString(b)) == CString(b)
  {
    CStringBytes(b);
    var s := CString(b);
    assert forall i :: 0 <= i < |s| ==> s[i] == b[i];
    CStringUnique(s, |s|);
  }

  /** A string behind bytes that are not zero. */
  lemma {:induction false} CStringAfter(b: seq<uint8>, p: nat)
    requires p <= |b| && forall i :: 0 <= i < p ==> b[i] != 0
    ensures CString(b) == b[..p] + CString(b[p..])
  {
    if p == 0 {
      assert b[0..] == b;
    } else {
      CStringAfter(b[1..], p - 1);
      assert b[1..][p - 1..] == b[p..];
      assert b[..p] == [b[0]] + b[1..][..p - 1];
    }
  }

  /** strlen of what starts at `from`. */
  method Length(buf: array<uint8>, from: nat) returns (n: nat)
    requires from <= buf.Length && Terminated(buf[from..])
    ensures n == |CString(buf[from..])| && from + n < buf.Length && buf[from + n] == 0
  {
    n := 0;
    ghost var b := buf[from..];
    CStringBytes(b);
    assert forall i :: 0 <= i < |b| ==> b[i] == buf[from + i];
    while buf[from + n] != 0
      invariant n <= |CString(b)|
      decreases |CString(b)| - n
    {
      n := n + 1;
    }
  }

  /** The memmove that closes a gap: the string at `from` now starts at `to`. */
  method CloseGap(buf: array<uint8>, to: nat, from: nat)
    requires to <= from < buf.Length && Terminated(buf[from..])
    modifies buf
    ensures buf[..to] == old(buf[..to])
    ensures CString(buf[to..]) == CString(old(buf[from..])) && Terminated(buf[to..])
  {
    hide CString;
    var n := Length(buf, from);
    ghost var before := buf[..];
    assert before[from..] == buf[from..];
    for k := 0 to n + 1
      invariant buf[..to] == before[..to]
      invariant forall j :: to <= j < to + k ==> buf[j] == before[j + (from - to)]
      invariant forall j :: to + k <= j < buf.Length ==> buf[j] == before[j]
    {
      buf[to + k] := buf[from + k];
    }
    SameString(before, from, buf[..], to);
    assert buf[..][to..] == buf[to..];
  }

  /** A string and its zero copied from a[i..] to b[j..]. */
  lemma SameString(a: seq<uint8>, i: nat, b: seq<uint8>, j: nat)
    requires i <= |a| && Terminated(a[i..]) && j + |CString(a[i..])| < |b|
    requires forall k :: j <= k <= j + |CString(a[i..])| ==> b[k] == a[k + (i - j)]
    ensures CString(b[j..]) == CString(a[i..]) && Terminated(b[j..])
  {
    var s, n := a[i..], |CString(a[i..])|;
    CStringBytes(s);
    assert forall k :: 0 <= k <= n ==> s[k] == a[i + k];
    assert forall k :: 0 <= k <= n ==> b[j..][k] == b[j + k];
    hide CString;
    CStringUnique(b[j..], n);
    assert b[j..][..n] == s[..n];
  }

  /** The string in a buffer. */
  method Text(buf: array<uint8>) returns (s: seq<uint8>)
    requires Terminated(buf[..])
    ensures s == CString(buf[..]) && CString(s) == s
  {
    assert buf[0..] == buf[..];
    var n := Length(buf, 0);
    CStringBytes(buf[..]);
    StringOfString(buf[..]);
    return buf[..n];
  }

  /** strip_current_dir_prefix. */
  method StripInPlace(buf: array<uint8>)
    requires Terminated(buf[..])
    modifies buf
    ensures Terminated(buf[..]) && CString(buf[..]) == Strip(CString(old(buf[..])))
  {
    ghost var s := CString(buf[..]);
    DropLoop(buf);
    CollapseLoop(buf);
  }

  /** Leading "./", as long as something follows. */
  method DropLoop(buf: array<uint8>)
    requires Terminated(buf[..])
    modifies buf
    ensures Terminated(buf[..]) && CString(buf[..]) == DropDots(CString(old(buf[..])))
  {
    ghost var s := CString(buf[..]);
    Front(buf[..]);
    while buf[0] == DOT && buf[1] == SLASH && buf[2] != 0
      invariant Terminated(buf[..]) && DropDots(CString(buf[..])) == DropDots(s)
      invariant FrontRead(buf[..])
      decreases |CString(buf[..])|
    {
      CStringAfter(buf[..], 2);
      assert buf[2..] == buf[..][2..];
      CloseGap(buf, 0, 2);
      assert buf[0..] == buf[..];
      Front(buf[..]);
    }
  }

  /** What the first bytes of a buffer say about its string. */
  predicate FrontRead(b: seq<uint8>) {
    var s := CString(b);
    && |b| > 0
    && (b[0] == 0 <==> s == [])
    && (b[0] != 0 ==> |b| > 1 && s[0] == b[0] && (b[1] == 0 <==> |s| == 1))
    && (b[0] != 0 && b[1] != 0 ==> |b| > 2 && s[1] == b[1] && (b[2] == 0 <==> |s| == 2))
    && (b[0] != 0 && b[1] != 0 && b[2] != 0 ==> |b| > 3 && s[2] == b[2])
  }

  lemma Front(b: seq<uint8>)
    requires Terminated(b)
    ensures FrontRead(b)
  {
    CStringBytes(b);
    var s := CString(b);
    assert forall i :: 0 <= i < |s| ==> s[i] == b[..|s|][i];
  }

  /** The bytes between the one at p and p + gap are removed. */
  method CloseAfter(buf: array<uint8>, p: nat, gap: nat)
    requires 0 < gap && p + gap < buf.Length && Terminated(buf[p + gap..]) && buf[p] != 0
    modifies buf
    ensures buf[..p] == old(buf[..p]) && buf[p] == old(buf[p]) && Terminated(buf[p..])
    ensures CString(buf[p..]) == [old(buf[p])] + CString(old(buf[p + gap..]))
  {
    ghost var before := buf[..];
    CloseGap(buf, p + 1, p + gap);
    assert forall i :: 0 <= i < p + 1 ==> buf[i] == buf[..p + 1][i];
    assert buf[..p] == before[..p];
    assert buf[p..][1..] == buf[p + 1..];
    assert buf[p] == before[p];
  }

  /** One look at the string from p on: a change, or one byte further. */
  method CollapseStep(buf: array<uint8>, p: nat) returns (q: nat)
    requires p < buf.Length && Terminated(buf[p..]) && buf[p] != 0
    modifies buf
    ensures p <= q <= p + 1 && q < buf.Length && Terminated(buf[q..]) && buf[..p] == old(buf[..p])
    ensures buf[p] != 0 && |CString(buf[q..])| < |CString(old(buf[p..]))|
    ensures buf[p..q] + Collapse(CString(buf[q..])) == Collapse(CString(old(buf[p..])))
  {
    hide CString, Collapse;
    ghost var b := buf[p..];
    Front(b);
    assert forall i :: 0 <= i < |b| ==> b[i] == buf[p + i];
    if buf[p] == SLASH && buf[p + 1] == SLASH {
      DoubleSlash(b);
      assert buf[p + 2..] == b[2..];
      CloseAfter(buf, p, 2);
      q := p;
    } else if buf[p] == SLASH && buf[p + 1] == DOT && buf[p + 2] == SLASH {
      SlashDotSlash(b);
      assert buf[p + 3..] == b[3..];
      CloseAfter(buf, p, 3);
      q := p;
    } else {
      NothingToCollapse(b);
      assert buf[p + 1..] == b[1..] && buf[p..p + 1] == [b[0]];
      q := p + 1;
    }
    ghost var rest := Collapse(CString(buf[q..]));
    assert q == p ==> buf[p..q] == [] && [] + rest == rest;
  }

  lemma DoubleSlash(b: seq<uint8>)
    requires Terminated(b) && |b| > 2 && b[0] == SLASH && b[1] == SLASH
    ensures Terminated(b[2..]) && |CString(b)| == 2 + |CString(b[2..])|
    ensures Collapse([SLASH] + CString(b[2..])) == Collapse(CString(b))
  {
    CStringAfter(b, 2);
    hide CString;
    assert CString(b)[1..] == [SLASH] + CString(b[2..]);
  }

  lemma SlashDotSlash(b: seq<uint8>)
    requires Terminated(b) && |b| > 3 && b[0] == SLASH && b[1] == DOT && b[2] == SLASH
    ensures Terminated(b[3..]) && |CString(b)| == 3 + |CString(b[3..])|
    ensures Collapse([SLASH] + CString(b[3..])) == Collapse(CString(b))
  {
    CStringAfter(b, 3);
    hide CString;
    assert CString(b)[2..] == [SLASH] + CString(b[3..]);
  }

  lemma NothingToCollapse(b: seq<uint8>)
    requires Terminated(b) && |b| > 1 && b[0] != 0
    requires !(b[0] == SLASH && b[1] == SLASH) && !(|b| > 2 && b[0] == SLASH && b[1] == DOT && b[2] == SLASH)
    ensures Terminated(b[1..]) && |CString(b)| == 1 + |CString(b[1..])|
    ensures Collapse(CString(b)) == [b[0]] + Collapse(CString(b[1..]))
  {
    CStringAfter(b, 1);
    Front(b);
    hide CString;
    assert CString(b)[1..] == CString(b[1..]);
  }

  /** "//" and "/./" become "/", with a pointer that stays after a change. */
  method CollapseLoop(buf: array<uint8>)
    requires Terminated(buf[..])
    modifies buf
    ensures Terminated(buf[..]) && CString(buf[..]) == Collapse(CString(old(buf[..])))
  {
    hide Collapse, CString;
    ghost var s := CString(buf[..]);
    var p := 0;
    assert buf[0..] == buf[..];
    while buf[p] != 0
      invariant p < buf.Length && Terminated(buf[p..])
      invariant forall i :: 0 <= i < p ==> buf[i] != 0
      invariant buf[..p] + Collapse(CString(buf[p..])) == Collapse(s)
      decreases |CString(buf[p..])|
    {
      ghost var done := buf[..p];
      var q := CollapseStep(buf, p);
      assert forall i :: 0 <= i < p ==> buf[i] == done[i];
      assert buf[..q] == done + buf[p..q];
      assert buf[..q] + Collapse(CString(buf[q..])) == done + (buf[p..q] + Collapse(CString(buf[q..])));
      p := q;
    }
    CStringUnique(buf[..], p);
    CStringUnique(buf[p..], 0);
    NothingLeft();
  }

  lemma NothingLeft()
    ensures Collapse([]) == []
  {}

  /** Every byte of the string that is `from` becomes `to`. */
  method ReplaceInPlace(buf: array<uint8>, from: uint8, to: uint8)
    requires Terminated(buf[..]) && to != 0 && from != 0
    modifies buf
    ensures Terminated(buf[..]) && CString(buf[..]) == Replace(CString(old(buf[..])), from, to)
  {
    ghost var before := buf[..];
    ghost var s := CString(before);
    CStringBytes(before);
    var i := 0;
    while buf[i] != 0
      invariant i <= |s|
      invariant forall j :: 0 <= j < i ==> buf[j] == Replace(s, from, to)[j] && buf[j] != 0
      invariant forall j :: i <= j < buf.Length ==> buf[j] == before[j]
      decreases |s| - i
    {
      assert s[i] == before[..|s|][i];
      if buf[i] == from {
        buf[i] := to;
      }
      i := i + 1;
    }
    CStringUnique(buf[..], i);
  }

  /** copy_name: the bytes and a zero, if they fit. */
  method CopyBytes(dst: array<uint8>, src: seq<uint8>) returns (ok: bool)
    requires dst.Length == MAX_NAME
    modifies dst
    ensures ok <==> 0 < |src| < MAX_NAME
    ensures ok ==> Terminated(dst[..]) && CString(dst[..]) == CString(src)
    ensures !ok ==> dst[..] == old(dst[..])
  {
    if |src| == 0 || |src| >= MAX_NAME {
      return false;
    }
    for i := 0 to |src|
      invariant forall j :: 0 <= j < i ==> dst[j] == src[j]
    {
      dst[i] := src[i];
    }
    dst[|src|] := 0;
    CStringBytes(src);
    var n := |CString(src)|;
    assert forall j :: 0 <= j < n ==> src[j] == src[..n][j];
    if n < |src| {
      assert Terminated(src);
    }
    CStringUnique(dst[..], n);
    assert dst[..][..n] == src[..n];
    return true;
  }

  /** copy_lha_name. */
  method CopyLha(dst: array<uint8>, src: seq<uint8>) returns (ok: bool)
    requires dst.Length == MAX_NAME
    modifies dst
    ensures ok <==> CopyLhaName(src).Some?
    ensures ok ==> Terminated(dst[..]) && CString(dst[..]) == CopyLhaName(src).value
    ensures !ok ==> dst[..] == old(dst[..])
  {
    hide Strip, CString;
    ok := CopyBytes(dst, src);
    if ok {
      ReplaceInPlace(dst, 0x5c, SLASH);
      StripInPlace(dst);
      ReplaceInPlace(dst, 0xff, SLASH);
      StripInPlace(dst);
    }
  }

  /** strcat. */
  method Append(dst: array<uint8>, s: seq<uint8>)
    requires Terminated(dst[..]) && CString(s) == s && |CString(dst[..])| + |s| < dst.Length
    modifies dst
    ensures Terminated(dst[..]) && CString(dst[..]) == CString(old(dst[..])) + s
  {
    hide CString;
    assert dst[0..] == dst[..];
    var n := Length(dst, 0);
    ghost var before := dst[..];
    CStringBytes(before);
    CStringBytes(s);
    for i := 0 to |s|
      invariant dst[..n] == before[..n] && dst[n..n + i] == s[..i]
    {
      dst[n + i] := s[i];
      assert dst[n..n + (i + 1)] == s[..i] + [s[i]];
    }
    dst[n + |s|] := 0;
    assert dst[..n] == before[..n] && dst[n..n + |s|] == s[..|s|];
    assert dst[..n + |s|] == dst[..n] + dst[n..n + |s|];
    TwoStrings(before[..n], s, dst[..]);
  }

  predicate NoZero(s: seq<uint8>) {
    forall i :: 0 <= i < |s| ==> s[i] != 0
  }

  /** A string, another one behind it, and a zero. */
  lemma TwoStrings(a: seq<uint8>, s: seq<uint8>, b: seq<uint8>)
    requires NoZero(a) && NoZero(s) && |a| + |s| < |b|
    requires b[..|a| + |s|] == a + s && b[|a| + |s|] == 0
    ensures CString(b) == a + s && Terminated(b)
  {
    hide CString;
    var n := |a| + |s|;
    forall i | 0 <= i < n
      ensures b[i] != 0
    {
      assert b[i] == (a + s)[i];
    }
    CStringUnique(b, n);
  }

  /** lha_join_dir_name, where the name may be the destination's own string. */
  method JoinDir(dst: array<uint8>, dir: seq<uint8>, name: seq<uint8>) returns (ok: bool)
    requires dst.Length == MAX_NAME && CString(dir) == dir && CString(name) == name
    modifies dst
    ensures ok <==> JoinDirName(dir, name).Some?
    ensures ok ==> Terminated(dst[..]) && CString(dst[..]) == JoinDirName(dir, name).value
    ensures !ok ==> dst[..] == old(dst[..])
  {
    hide Strip, CString;
    CStringUnique([SLASH], 1);
    var separate := dir != [] && dir[|dir| - 1] != SLASH;
    if |name| >= MAX_NAME || |dir| + (if separate then 1 else 0) + |name| >= MAX_NAME {
      return false;
    }
    dst[0] := 0;
    CStringUnique(dst[..], 0);
    Append(dst, dir);
    if separate {
      Append(dst, [SLASH]);
    }
    Append(dst, name);
    assert CString(dst[..]) == if separate then dir + [SLASH] + name else dir + name;
    StripInPlace(dst);
    return true;
  }

  /** tar_normalize_name. */
  method NormalizeInPlace(name: array<uint8>) returns (skip: bool)
    requires Terminated(name[..])
    modifies name
    ensures Terminated(name[..])
    ensures skip <==> Normalize(CString(old(name[..]))).None?
    ensures CString(name[..]) == if skip then [] else Normalize(CString(old(name[..]))).value
  {
    hide Strip;
    ghost var s := CString(name[..]);
    Front(name[..]);
    while name[0] == DOT && name[1] == SLASH
      invariant Terminated(name[..]) && DropAllDots(CString(name[..])) == DropAllDots(s)
      invariant FrontRead(name[..])
      decreases |CString(name[..])|
    {
      CStringAfter(name[..], 2);
      assert name[2..] == name[..][2..];
      CloseGap(name, 0, 2);
      assert name[0..] == name[..];
      Front(name[..]);
    }
    StripInPlace(name);
    Front(name[..]);
    skip := name[0] == 0 || (name[0] == DOT && name[1] == 0);
    if skip {
      name[0] := 0;
    }
  }
}
