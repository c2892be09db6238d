/** Path names (file_system/vfs/vfs.c): components, the owning mount, and the parent of a path. */
module Paths {
  import opened Wrappers

  /** The position of the first slash, or the length when there is none. */
  function FirstSlash(s: string): (i: nat)
    ensures i <= |s| && (i < |s| ==> s[i] == '/')
    ensures forall j | 0 <= j < i :: s[j] != '/'
  {
    if s == "" || s[0] == '/' then 0 else 1 + FirstSlash(s[1..])
  }

  /** The non-empty components of a path. */
  function Components(s: string): (names: seq<string>)
    ensures forall i | 0 <= i < |names| :: names[i] != "" && '/' !in names[i]
    decreases |s|
  {
    if s == "" then []
    else if s[0] == '/' then Components(s[1..])
    else [s[..FirstSlash(s)]] + Components(s[FirstSlash(s)..])
  }

  lemma FirstSlashAppend(a: string, b: string)
    ensures FirstSlash(a + "/" + b) == FirstSlash(a)
  {
    var s := a + "/" + b;
    var i, j := FirstSlash(s), FirstSlash(a);
    assert s[|a|] == '/';
    assert forall k | 0 <= k < |a| :: s[k] == a[k];
  }

  /** Slashes separate: the components of a path are those before a slash and then those after it. */
  lemma {:induction false} ComponentsJoin(a: string, b: string)
    ensures Components(a + "/" + b) == Components(a) + Components(b)
    decreases |a|
  {
    var s := a + "/" + b;
    if a == "" {
      assert s[1..] == b;
    } else if a[0] == '/' {
      assert s[1..] == a[1..] + "/" + b;
      ComponentsJoin(a[1..], b);
    } else {
      FirstSlashAppend(a, b);
      var i := FirstSlash(a);
      assert s[..i] == a[..i];
      assert s[i..] == a[i..] + "/" + b;
      ComponentsJoin(a[i..], b);
    }
  }

  lemma SingleComponent(s: string)
    requires '/' !in s
    ensures Components(s) == if s == "" then [] else [s]
  {
    if s != "" {
      assert FirstSlash(s) == |s|;
      assert s[..|s|] == s;
    }
  }

  /** A doubled slash is a single one. */
  lemma DoubledSlash(a: string, b: string)
    ensures Components(a + "//" + b) == Components(a + "/" + b)
  {
    ComponentsJoin(a, "/" + b);
    assert a + "//" + b == a + "/" + ("/" + b);
    ComponentsJoin("", b);
    assert "" + "/" + b == "/" + b;
    ComponentsJoin(a, b);
  }

  /** The position of the last slash, or -1. */
  function LastSlash(s: string): (i: int)
    ensures -1 <= i < |s| && (i >= 0 ==> s[i] == '/')
    ensures forall j | i < j < |s| :: s[j] != '/'
  {
    if s == "" then -1
    else if s[|s| - 1] == '/' then |s| - 1
    else LastSlash(s[..|s| - 1])
  }

  /** Where the parent part of an absolute path ends. */
  function ParentEnd(path: string): nat {
    if LastSlash(path) <= 0 then 1 else LastSlash(path)
  }

  function Parent(path: string): string {
    if LastSlash(path) <= 0 then "/" else path[..LastSlash(path)]
  }

  /** kstrcpy into a 64-byte buffer. */
  function Clipped(s: string): (r: string)
    ensures |r| < 64 && (|s| < 64 ==> r == s) && (|s| >= 64 ==> |r| == 63) && r <= s
  {
    if |s| <= 63 then s else s[..63]
  }

  /** The name part. A path without a slash loses its first character here. */
  function BaseName(path: string): (r: string)
    requires path != ""
    ensures |r| < 64
  {
    Clipped(if LastSlash(path) <= 0 then path[1..] else path[LastSlash(path) + 1..])
  }

  /** A path without a slash is taken for one below the root, but without its first character. */
  lemma RelativeName(path: string)
    requires path != "" && '/' !in path
    ensures Parent(path) == "/" && BaseName(path) <= path[1..] && (|path| <= 64 ==> BaseName(path) == path[1..])
  {
    hide LastSlash;
  }

  predicate Absolute(path: string) {
    path != "" && path[0] == '/'
  }

  /** The components of an absolute path are those of its parent and its name, whatever common prefix
      of the two is cut off. */
  lemma SplitComponents(path: string, cut: nat)
    requires Absolute(path) && cut <= ParentEnd(path) && |path[LastSlash(path) + 1..]| < 64
    ensures Parent(path) == path[..ParentEnd(path)] && ParentEnd(path) <= |path|
    ensures Components(path[cut..]) ==
            Components(Parent(path)[cut..]) + if BaseName(path) == "" then [] else [BaseName(path)]
  {
    hide Components, LastSlash;
    var last := LastSlash(path);
    var name := path[last + 1..];
    SingleComponent(name);
    if last == 0 {
      RootComponents(name);
      assert path == "/" + name && path[0..] == path && "/"[0..] == "/" && "/"[1..] == "";
    } else {
      var dir := path[..last];
      ComponentsJoin(dir[cut..], name);
      assert path[cut..] == dir[cut..] + "/" + name;
    }
  }

  lemma RootComponents(name: string)
    ensures Components("/" + name) == Components(name)
    ensures Components("") == [] && Components("/") == []
    ensures ("/" + name)[1..] == name
  {
    assert ("/" + name)[1..] == name;
  }

  // ---- mounts --------------------------------------------------------------

  /** The mount with the longest point that is a prefix of the path, if any. */
  function Owner(points: seq<string>, path: string): (r: Option<nat>)
    ensures r.Some? ==> r.value < |points| && points[r.value] <= path
    ensures r.Some? ==> forall j | 0 <= j < |points| && points[j] <= path :: |points[j]| <= |points[r.value]|
    ensures r.Some? ==> forall j | 0 <= j < r.value && points[j] <= path :: |points[j]| < |points[r.value]|
    ensures r.None? ==> forall j | 0 <= j < |points| :: !(points[j] <= path)
  {
    if points == [] then None
    else
      var n := |points| - 1;
      var best := Owner(points[..n], path);
      if points[n] <= path && (best.None? || |points[n]| > |points[best.value]|) then Some(n) else best
  }

  /** The owner is determined by its properties. */
  lemma OwnerUnique(points: seq<string>, path: string, m: nat)
    requires m < |points| && points[m] <= path
    requires forall j | 0 <= j < |points| && points[j] <= path :: |points[j]| <= |points[m]|
    requires forall j | 0 <= j < m && points[j] <= path :: |points[j]| < |points[m]|
    ensures Owner(points, path) == Some(m)
  {
    hide Owner;
    var r := Owner(points, path);
    assert r.Some?;
    if r.value < m {
    } else if m < r.value {
    }
  }

  /** A path and its prefix that still covers the mount point have the same owner. */
  lemma OwnerOfPrefix(points: seq<string>, path: string, n: nat)
    requires n <= |path| && Owner(points, path).Some? && |points[Owner(points, path).value]| <= n
    ensures Owner(points, path[..n]) == Owner(points, path)
  {
    hide Owner;
    var m := Owner(points, path).value;
    assert points[m] <= path[..n];
    forall j | 0 <= j < |points| && points[j] <= path[..n] ensures points[j] <= path {
    }
    OwnerUnique(points, path[..n], m);
  }

  /** A mount point ends where a component of the path ends. */
  predicate Bounded(point: string, path: string)
    requires point <= path
  {
    point == "" || point == "/" || |path| == |point| || path[|point|] == '/'
  }

  /** Below a bounded mount point the whole mount point belongs to the parent. */
  lemma BoundedParent(point: string, path: string)
    requires Absolute(path) && point <= path && Bounded(point, path) && path != point
    ensures |point| <= ParentEnd(path)
  {
    hide LastSlash;
  }
}
