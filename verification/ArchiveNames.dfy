module Options {
  datatype Option<T> = None | Some(value: T)
}

/** Member names (tools/zz9k-archive.c): C strings in 256-byte buffers. */
module ArchiveNames {
  import opened Words
  import opened Options

  const MAX_NAME: nat := 256
  const DOT: uint8 := 0x2e
  const SLASH: uint8 := 0x2f

  /** The C string that starts a buffer. */
  function CString(b: seq<uint8>): (s: seq<uint8>)
    ensures |s| <= |b|
  {
    if b == [] || b[0] == 0 then [] else [b[0]] + CString(b[1..])
  }

  function Replace(s: seq<uint8>, from: uint8, to: uint8): (r: seq<uint8>)
    ensures |r| == |s|
  {
    seq(|s|, i requires 0 <= i < |s| => if s[i] == from then to else s[i])
  }

  /** Leading "./" removed, as long as something follows. */
  function DropDots(s: seq<uint8>): (r: seq<uint8>)
    ensures |r| <= |s|
  {
    if |s| >= 3 && s[0] == DOT && s[1] == SLASH then DropDots(s[2..]) else s
  }

  /** "//" and "/./" turned into "/", from the front, looking again after each
      change. */
  function Collapse(s: seq<uint8>): (r: seq<uint8>)
    ensures |r| <= |s|
    decreases |s|
  {
    if s == [] then []
    else if |s| >= 2 && s[0] == SLASH && s[1] == SLASH then Collapse(s[1..])
    else if |s| >= 3 && s[0] == SLASH && s[1] == DOT && s[2] == SLASH then Collapse(s[2..])
    else [s[0]] + Collapse(s[1..])
  }

  /** strip_current_dir_prefix. */
  function Strip(s: seq<uint8>): (r: seq<uint8>)
    ensures |r| <= |s|
  {
    Collapse(DropDots(s))
  }

  /** No "//" and no "/./" anywhere. */
  predicate Clean(s: seq<uint8>) {
    && (forall i :: 0 <= i < |s| - 1 ==> !(s[i] == SLASH && s[i + 1] == SLASH))
    && (forall i :: 0 <= i < |s| - 2 ==> !(s[i] == SLASH && s[i + 1] == DOT && s[i + 2] == SLASH))
  }

  /** One pass from the front leaves nothing to collapse. */
  lemma {:induction false} CollapseCleans(s: seq<uint8>)
    ensures Clean(Collapse(s))
    ensures s != [] ==> Collapse(s) != [] && Collapse(s)[0] == s[0]
    ensures |s| >= 2 && s[0] != SLASH && s[1] != SLASH ==> |Collapse(s)| >= 2 && Collapse(s)[1] == s[1]
    ensures |s| >= 2 && s[0] != SLASH && s[1] == SLASH ==> |Collapse(s)| >= 2 && Collapse(s)[1] == SLASH
    ensures |s| == 1 ==> |Collapse(s)| == 1
    decreases |s|
  {
    if s == [] {
    } else if |s| >= 2 && s[0] == SLASH && s[1] == SLASH {
      CollapseCleans(s[1..]);
    } else if |s| >= 3 && s[0] == SLASH && s[1] == DOT && s[2] == SLASH {
      CollapseCleans(s[2..]);
    } else {
      CollapseCleans(s[1..]);
      assert Collapse(s) == [s[0]] + Collapse(s[1..]);
    }
  }

  lemma {:induction false} CleanStays(s: seq<uint8>)
    requires Clean(s)
    ensures Collapse(s) == s
  {
    if s != [] {
      assert forall i :: 0 <= i < |s| - 1 ==> s[1..][i] == s[i + 1];
      CleanStays(s[1..]);
    }
  }

  /** Stripping a stripped name changes nothing. */
  lemma StripTwice(s: seq<uint8>)
    ensures Clean(Strip(s)) && Strip(Strip(s)) == Strip(s)
  {
    var d := DropDots(s);
    DropDotsDone(s);
    CollapseCleans(d);
    hide Collapse, DropDots;
    CleanStays(Strip(s));
    CollapseShort(d);
    NothingToDrop(Strip(s));
  }

  lemma {:induction false} DropDotsDone(s: seq<uint8>)
    ensures var d := DropDots(s); !(|d| >= 3 && d[0] == DOT && d[1] == SLASH)
  {
    if |s| >= 3 && s[0] == DOT && s[1] == SLASH {
      DropDotsDone(s[2..]);
    }
  }

  lemma CollapseShort(d: seq<uint8>)
    ensures |Collapse(d)| <= |d|
  {}

  lemma NothingToDrop(s: seq<uint8>)
    requires !(|s| >= 3 && s[0] == DOT && s[1] == SLASH)
    ensures DropDots(s) == s
  {}

  predicate EndsWithSlash(name: seq<uint8>) {
    |name| > 0 && name[|name| - 1] == SLASH
  }

  /** copy_lha_name: a name of 1 to 255 bytes. */
  function CopyLhaName(src: seq<uint8>): (r: Option<seq<uint8>>)
    ensures r.Some? ==> |r.value| < MAX_NAME
    ensures r.Some? <==> 0 < |src| < MAX_NAME
  {
    if |src| == 0 || |src| >= MAX_NAME then None
    else Some(Strip(Replace(Strip(Replace(CString(src), 0x5c, SLASH)), 0xff, SLASH)))
  }

  /** lha_join_dir_name. */
  function JoinDirName(dir: seq<uint8>, name: seq<uint8>): (r: Option<seq<uint8>>)
    ensures r.Some? ==> |r.value| < MAX_NAME
  {
    var path := if dir != [] && !EndsWithSlash(dir) then dir + [SLASH] + name else dir + name;
    if |name| >= MAX_NAME || |path| >= MAX_NAME then None else Some(Strip(path))
  }

  /** All leading "./" removed. */
  function DropAllDots(s: seq<uint8>): seq<uint8> {
    if |s| >= 2 && s[0] == DOT && s[1] == SLASH then DropAllDots(s[2..]) else s
  }

  /** tar_normalize_name: the name, or None for one that is skipped. */
  function Normalize(name: seq<uint8>): Option<seq<uint8>> {
    var n := Strip(DropAllDots(name));
    if n == [] || n == [DOT] then None else Some(n)
  }

  /** A clean name that does not start with "./" stays as it is. */
  lemma CleanNormal(name: seq<uint8>)
    requires Clean(name) && name != [] && name != [DOT] && !(|name| >= 2 && name[0] == DOT && name[1] == SLASH)
    ensures Normalize(name) == Some(name)
  {
    CleanStays(name);
    NothingToDrop(name);
  }
}
