/** Path resolution and the operations on paths (file_system/vfs/vfs.c) over mounted shadowFS instances. */
module Vfs {
  import opened Wrappers
  import opened Words
  import opened FileChain
  import opened Directories
  import opened ShadowFs
  import opened Paths

  const MAX_PATH: nat := 64

  function Points(mounts: seq<Superblock>): (r: seq<string>)
    ensures |r| == |mounts| && forall i | 0 <= i < |r| :: r[i] == mounts[i].point
  {
    seq(|mounts|, i requires 0 <= i < |mounts| => mounts[i].point)
  }

  /** What is left of a path below mount m. */
  function Below(mounts: seq<Superblock>, m: nat, path: string): seq<string>
    requires m < |mounts| && mounts[m].point <= path
  {
    Components(path[|mounts[m].point|..])
  }

  predicate Rooted(mounts: seq<Superblock>, nodes: Inodes) {
    forall m | 0 <= m < |mounts| :: Live(nodes, mounts[m].root)
  }

  /** What a path stands for: lookup folded over its non-empty components, from the root of the mount
      with the longest matching point. */
  function Meaning(mounts: seq<Superblock>, nodes: Inodes, path: string): Outcome
    requires Rooted(mounts, nodes)
  {
    match Owner(Points(mounts), path)
    case None => Missing
    case Some(m) => Walk(nodes, mounts[m].root, Below(mounts, m, path))
  }

  /** Every component fits the 64-byte buffer it is copied into. */
  predicate ShortNames(mounts: seq<Superblock>, path: string) {
    match Owner(Points(mounts), path)
    case None => true
    case Some(m) => AllShort(Below(mounts, m, path))
  }

  predicate AllShort(names: seq<string>) {
    forall i | 0 <= i < |names| :: |names[i]| < MAX_NAME
  }

  lemma OkRooted(mounts: seq<Superblock>, nodes: Inodes, up: Links, lost: seq<nat>)
    requires Ok(mounts, nodes, up, lost)
    ensures Rooted(mounts, nodes)
    ensures forall m | 0 <= m < |mounts| :: Root(nodes, up, mounts[m].root)
    ensures forall m, n | 0 <= m < n < |mounts| :: mounts[m].root != mounts[n].root
    ensures Named(nodes, up)
  {
    forall m | 0 <= m < |mounts|
      ensures Root(nodes, up, mounts[m].root) && nodes[mounts[m].root].value.sb == m
    {
      assert MountOk(mounts[m], m, nodes, up, lost[m]);
    }
  }

  /** The prefix loop of vfs_find_mount. */
  method Matches(point: string, path: string) returns (matches: bool)
    ensures matches <==> point <= path
  {
    for j := 0 to |point|
      invariant j <= |path| && point[..j] == path[..j]
    {
      if j >= |path| || point[j] != path[j] { return false; }
    }
    return true;
  }

  /** vfs_find_mount. */
  method FindMount(mounts: seq<Superblock>, path: string) returns (best: Option<nat>)
    ensures best == Owner(Points(mounts), path)
  {
    best := None;
    for i := 0 to |mounts|
      invariant best == Owner(Points(mounts)[..i], path)
    {
      assert Points(mounts)[..i + 1][..i] == Points(mounts)[..i];
      var matches := Matches(mounts[i].point, path);
      if matches && (best.None? || |mounts[i].point| > |mounts[best.value].point|) {
        best := Some(i);
      }
    }
    assert Points(mounts)[..|mounts|] == Points(mounts);
  }

  /** The component loop of vfs_resolve_path: it walks one component further whenever it meets one. */
  method WalkPath(s: Store, root: nat, path: string) returns (r: Outcome)
    requires s.Valid() && Live(s.nodes, root)
    requires AllShort(Components(path))
    ensures r == Walk(s.nodes, root, Components(path))
  {
    hide Components, Walk, Lookup, Ok, AllTight;
    ghost var names := Components(path);
    ghost var done := [];
    var rest := path;
    var current := root;
    WalkEmpty(s.nodes, root);
    while rest != ""
      invariant done + Components(rest) == names
      invariant Live(s.nodes, current) && Walk(s.nodes, root, done) == Found(current)
      decreases |rest|
    {
      var i := 0;
      while i < |rest| && rest[i] != '/'
        invariant i <= |rest| && forall j | 0 <= j < i :: rest[j] != '/'
      {
        i := i + 1;
      }
      ghost var was := rest;
      var component := rest[..i];
      rest := if i < |rest| then rest[i + 1..] else "";
      NextComponent(was, i);
      if i == 0 { continue; }
      assert names[|done|] == component;
      assert |component| < MAX_NAME;
      var next := s.Find(current, component);
      assert (done + [component])[..|done|] == done;
      OkNamed(s.mounts, s.nodes, s.up, s.lost);
      WalkStep(s.nodes, s.up, root, done + [component]);
      if !next.Found? {
        WalkStops(s.nodes, s.up, root, done + [component], Components(rest));
        assert done + [component] + Components(rest) == names;
        return next;
      }
      LookupLive(s.nodes, s.up, current, component);
      done, current := done + [component], next.inode;
    }
    NoComponents();
    assert done == names;
    r := Found(current);
  }

  lemma NoComponents()
    ensures Components("") == []
  {
  }

  lemma OkNamed(mounts: seq<Superblock>, nodes: Inodes, up: Links, lost: seq<nat>)
    requires Ok(mounts, nodes, up, lost)
    ensures Named(nodes, up)
  {
  }

  lemma NextComponent(s: string, i: nat)
    requires s != "" && i <= |s| && (i < |s| ==> s[i] == '/') && forall j | 0 <= j < i :: s[j] != '/'
    ensures var rest := if i < |s| then s[i + 1..] else "";
            Components(s) == (if i == 0 then [] else [s[..i]]) + Components(rest)
  {
    if i == |s| {
      assert s[..i] == s;
      SingleComponent(s);
    } else {
      SingleComponent(s[..i]);
      ComponentsJoin(s[..i], s[i + 1..]);
      assert s == s[..i] + "/" + s[i + 1..];
    }
  }

  /** Once a name cannot be followed, no further name can. */
  lemma {:induction false} WalkStops(nodes: Inodes, up: Links, from: nat, names: seq<string>, more: seq<string>)
    requires Named(nodes, up) && Live(nodes, from) && !Walk(nodes, from, names).Found?
    ensures Walk(nodes, from, names + more) == Walk(nodes, from, names)
  {
    hide Walk, Named, Lookup;
    if more == [] {
      assert names + more == names;
    } else {
      var n := |more| - 1;
      WalkStops(nodes, up, from, names, more[..n]);
      assert (names + more)[..|names + more| - 1] == names + more[..n];
      WalkStep(nodes, up, from, names + more);
    }
  }

  /** vfs_resolve_path: the special cases for the mount point itself and for "/" agree with the fold. */
  method Resolve(s: Store, path: string) returns (r: Outcome)
    requires s.Valid() && ShortNames(s.mounts, path)
    ensures Rooted(s.mounts, s.nodes)
    ensures r == Meaning(s.mounts, s.nodes, path)
  {
    OkRooted(s.mounts, s.nodes, s.up, s.lost);
    hide Ok, AllTight, Components, Walk, Owner;
    var m := FindMount(s.mounts, path);
    if m.None? { return Missing; }
    var sb := s.mounts[m.value];
    WalkEmpty(s.nodes, sb.root);
    var rest := path[|sb.point|..];
    if path == sb.point || path == "/" {
      RootComponents("");
      assert rest == "" || rest == "/";
      return Found(sb.root);
    }
    if rest != "" && rest[0] == '/' {
      assert rest == "/" + rest[1..];
      RootComponents(rest[1..]);
      rest := rest[1..];
    }
    r := WalkPath(s, sb.root, rest);
  }

  /** The loop that splits a path at its last slash. */
  method Split(path: string) returns (parent: string, name: string)
    requires path != ""
    ensures parent == Parent(path) && name == BaseName(path)
  {
    var last, i := -1, |path| - 1;
    while i >= 0
      invariant -1 <= i < |path| && last == -1
      invariant forall j | i < j < |path| :: path[j] != '/'
    {
      if path[i] == '/' {
        last := i;
        break;
      }
      i := i - 1;
    }
    assert last == LastSlash(path);
    if last <= 0 {
      parent, name := "/", Clipped(path[1..]);
    } else {
      parent, name := path[..last], Clipped(path[last + 1..]);
    }
  }

  /** The path's parent fits the buffer it is copied into, and so do the components on the way. */
  predicate Fits(mounts: seq<Superblock>, path: string) {
    path != "" && ShortNames(mounts, path) && ShortNames(mounts, Parent(path)) && LastSlash(path) < MAX_PATH
  }

  /** The directory entry an operation on a path is about: the parent's mount and the names below it. */
  predicate Placed(mounts: seq<Superblock>, path: string, m: nat, names: seq<string>)
    requires path != ""
  {
    && Owner(Points(mounts), Parent(path)) == Some(m)
    && names == Below(mounts, m, Parent(path)) + [BaseName(path)]
  }

  /** The path q leads to the names below mount m. */
  predicate Spells(mounts: seq<Superblock>, q: string, m: nat, names: seq<string>) {
    Owner(Points(mounts), q) == Some(m) && Below(mounts, m, q) == names
  }

  /** Exactly the paths that spell the place lead to k now; all others mean what they meant. */
  ghost predicate OnlyCreated(mounts: seq<Superblock>, was: Inodes, now: Inodes, m: nat, names: seq<string>, k: nat)
    requires Rooted(mounts, was) && Rooted(mounts, now)
  {
    forall q :: Meaning(mounts, now, q) == if Spells(mounts, q, m, names) then Found(k) else Meaning(mounts, was, q)
  }

  /** Exactly the paths through the place are gone; all others mean what they meant. */
  ghost predicate OnlyDeleted(mounts: seq<Superblock>, was: Inodes, now: Inodes, m: nat, names: seq<string>)
    requires Rooted(mounts, was) && Rooted(mounts, now)
  {
    forall q :: Meaning(mounts, now, q) ==
                if Owner(Points(mounts), q) == Some(m) && Under(names, Below(mounts, m, q)) then Missing
                else Meaning(mounts, was, q)
  }

  lemma CreatedMeaning(mounts: seq<Superblock>, nodes: Inodes, up: Links, lost: seq<nat>,
                       d: nat, name: string, x: Inode, m: nat, names: seq<string>)
    requires Ok(mounts, nodes, up, lost) && IsDir(nodes, d) && Fresh(x) && x.sb == nodes[d].value.sb
    requires Search(nodes[d].value.entries, name).None?
    requires m < |mounts| && Live(nodes, mounts[m].root) && Walk(nodes, mounts[m].root, names) == Found(d)
    ensures Rooted(mounts, nodes) && Rooted(mounts, Created(nodes, d, name, x))
    ensures OnlyCreated(mounts, nodes, Created(nodes, d, name, x), m, names + [name], |nodes|)
  {
    OkRooted(mounts, nodes, up, lost);
    hide Ok, AllTight, Owner, Components, Walk, Search, Named;
    var nodes' := Created(nodes, d, name, x);
    forall q ensures Meaning(mounts, nodes', q) ==
                     if Spells(mounts, q, m, names + [name]) then Found(|nodes|) else Meaning(mounts, nodes, q)
    {
      var o := Owner(Points(mounts), q);
      if o.Some? {
        CreatedMeans(nodes, up, d, name, x, mounts[m].root, names, mounts[o.value].root, Below(mounts, o.value, q));
      }
    }
  }

  lemma CreatedMeans(nodes: Inodes, up: Links, d: nat, name: string, x: Inode, r: nat, names: seq<string>, s: nat, q: seq<string>)
    requires Named(nodes, up) && IsDir(nodes, d) && Fresh(x) && x.sb == nodes[d].value.sb
    requires Search(nodes[d].value.entries, name).None?
    requires Root(nodes, up, r) && Root(nodes, up, s) && Walk(nodes, r, names) == Found(d)
    ensures Live(Created(nodes, d, name, x), s)
    ensures Walk(Created(nodes, d, name, x), s, q) ==
            if s == r && q == names + [name] then Found(|nodes|) else Walk(nodes, s, q)
  {
    hide Named, Walk, Search;
    CreatedWalk(nodes, up, d, name, x, s, q);
    if q != [] && q[|q| - 1] == name && Walk(nodes, s, q[..|q| - 1]) == Found(d) {
      UniqueWalk(nodes, up, r, names, s, q[..|q| - 1]);
      assert q == q[..|q| - 1] + [name];
    }
    if s == r && q == names + [name] {
      assert q[..|q| - 1] == names;
    }
  }

  lemma DeletedMeaning(mounts: seq<Superblock>, nodes: Inodes, up: Links, lost: seq<nat>,
                       d: nat, i: nat, m: nat, names: seq<string>)
    requires Ok(mounts, nodes, up, lost) && Entry(nodes, up, d, i)
    requires m < |mounts| && Live(nodes, mounts[m].root) && Walk(nodes, mounts[m].root, names) == Found(d)
    ensures Rooted(mounts, nodes) && Rooted(mounts, Deleted(nodes, d, i))
    ensures OnlyDeleted(mounts, nodes, Deleted(nodes, d, i), m, names + [nodes[d].value.entries[i].name])
  {
    OkRooted(mounts, nodes, up, lost);
    hide Ok, AllTight, Owner, Components, Walk, Search, Named, Under;
    var nodes', p := Deleted(nodes, d, i), names + [nodes[d].value.entries[i].name];
    assert p[..|p| - 1] == names;
    forall n | 0 <= n < |mounts| ensures Live(nodes', mounts[n].root) {
      DeletedWalk(nodes, up, d, i, p, mounts[m].root, mounts[n].root, []);
    }
    forall q ensures Meaning(mounts, nodes', q) ==
                     if Owner(Points(mounts), q) == Some(m) && Under(p, Below(mounts, m, q)) then Missing
                     else Meaning(mounts, nodes, q)
    {
      var o := Owner(Points(mounts), q);
      if o.Some? {
        DeletedWalk(nodes, up, d, i, p, mounts[m].root, mounts[o.value].root, Below(mounts, o.value, q));
      }
    }
  }

  // ---- operations on paths -------------------------------------------------

  /** Mounts differ in what is used only. */
  predicate SameMounts(a: seq<Superblock>, b: seq<Superblock>) {
    |a| == |b| && forall m | 0 <= m < |a| :: a[m].point == b[m].point && a[m].root == b[m].root && a[m].quota == b[m].quota
  }

  /** No mount is charged for more than one entry. */
  predicate Cheap(a: seq<Superblock>, b: seq<Superblock>) {
    |a| == |b| && forall m | 0 <= m < |a| :: b[m].used <= a[m].used + ENTRY_CHARGE
  }

  lemma SameMeaning(a: seq<Superblock>, b: seq<Superblock>, nodes: Inodes, q: string)
    requires SameMounts(a, b) && Rooted(a, nodes)
    ensures Rooted(b, nodes) && Meaning(a, nodes, q) == Meaning(b, nodes, q)
  {
    hide Owner, Components, Walk;
    assert Points(a) == Points(b);
  }

  /** Only the entry named by the path is new, and it leads to inode k. */
  ghost predicate NewAt(mounts: seq<Superblock>, was: Inodes, now: Inodes, path: string, k: nat)
    requires path != "" && Rooted(mounts, was)
  {
    Rooted(mounts, now) && exists m, names :: Placed(mounts, path, m, names) && OnlyCreated(mounts, was, now, m, names, k)
  }

  /** Only the entry named by the path is gone. */
  ghost predicate GoneAt(mounts: seq<Superblock>, was: Inodes, now: Inodes, path: string)
    requires path != "" && Rooted(mounts, was)
  {
    Rooted(mounts, now) && exists m, names :: Placed(mounts, path, m, names) && OnlyDeleted(mounts, was, now, m, names)
  }

  lemma MeaningLive(mounts: seq<Superblock>, nodes: Inodes, up: Links, lost: seq<nat>, path: string)
    requires Ok(mounts, nodes, up, lost) && Rooted(mounts, nodes)
    ensures Meaning(mounts, nodes, path).Found? ==>
              var i := Meaning(mounts, nodes, path).inode; Live(nodes, i) && nodes[i].value.sb < |mounts|
  {
    var o := Owner(Points(mounts), path);
    hide Owner, Components, Walk;
    if o.Some? { WalkLive(nodes, up, mounts[o.value].root, Below(mounts, o.value, path)); }
  }

  lemma NewAtPath(mounts: seq<Superblock>, nodes: Inodes, up: Links, lost: seq<nat>, path: string, d: nat, x: Inode)
    requires path != "" && Ok(mounts, nodes, up, lost) && Rooted(mounts, nodes)
    requires Meaning(mounts, nodes, Parent(path)) == Found(d)
    requires IsDir(nodes, d) && Fresh(x) && x.sb == nodes[d].value.sb
    requires Search(nodes[d].value.entries, BaseName(path)).None?
    ensures NewAt(mounts, nodes, Created(nodes, d, BaseName(path), x), path, |nodes|)
  {
    hide Ok, AllTight, Owner, Components, Walk, Search, Named, OnlyCreated;
    var m := Owner(Points(mounts), Parent(path)).value;
    var names := Below(mounts, m, Parent(path));
    CreatedMeaning(mounts, nodes, up, lost, d, BaseName(path), x, m, names);
    assert Placed(mounts, path, m, names + [BaseName(path)]);
  }

  lemma GoneAtPath(mounts: seq<Superblock>, nodes: Inodes, up: Links, lost: seq<nat>, path: string, d: nat, i: nat)
    requires path != "" && Ok(mounts, nodes, up, lost) && Rooted(mounts, nodes)
    requires Meaning(mounts, nodes, Parent(path)) == Found(d)
    requires Entry(nodes, up, d, i) && nodes[d].value.entries[i].name == BaseName(path)
    ensures GoneAt(mounts, nodes, Deleted(nodes, d, i), path)
  {
    hide Ok, AllTight, Owner, Components, Walk, Search, Named, OnlyDeleted;
    var m := Owner(Points(mounts), Parent(path)).value;
    var names := Below(mounts, m, Parent(path));
    DeletedMeaning(mounts, nodes, up, lost, d, i, m, names);
    assert Placed(mounts, path, m, names + [BaseName(path)]);
  }

  predicate FilesKept(was: Inodes, now: Inodes) {
    |was| <= |now| && forall i | 0 <= i < |was| :: IsFile(was, i) ==> now[i] == was[i]
  }

  /** What an attempt to create the entry that a path names comes to. */
  ghost predicate Creation(mounts: seq<Superblock>, nodes: Inodes, mounts': seq<Superblock>, nodes': Inodes,
                           path: string, directory: bool, r: Outcome)
    requires path != ""
  {
    && Rooted(mounts, nodes) && SameMounts(mounts, mounts') && Cheap(mounts, mounts')
    && (r.Found? <==> Creatable(mounts, nodes, path))
    && (if r.Found? then
          && r.inode == |nodes| && |nodes'| == |nodes| + 1
          && nodes'[r.inode].Some? && Fresh(nodes'[r.inode].value) && nodes'[r.inode].value.Dir? == directory
          && FilesKept(nodes, nodes')
          && NewAt(mounts, nodes, nodes', path, r.inode)
        else nodes' == nodes && mounts' == mounts)
  }

  /** What an attempt to delete the entry that a path names comes to. */
  ghost predicate Removal(mounts: seq<Superblock>, nodes: Inodes, mounts': seq<Superblock>, nodes': Inodes,
                          path: string, r: Outcome)
    requires path != ""
  {
    && Rooted(mounts, nodes) && SameMounts(mounts, mounts')
    && (var p := Meaning(mounts, nodes, Parent(path));
        r == if p.Found? && Live(nodes, p.inode) then Lookup(nodes, p.inode, BaseName(path)) else p)
    && (if r.Found? then !Live(nodes', r.inode) && GoneAt(mounts, nodes, nodes', path)
        else nodes' == nodes && mounts' == mounts)
  }

  lemma CreationDone(mounts: seq<Superblock>, nodes: Inodes, up: Links, lost: seq<nat>, mounts': seq<Superblock>,
                     path: string, d: nat, directory: bool)
    requires path != "" && Ok(mounts, nodes, up, lost) && Rooted(mounts, nodes)
    requires Meaning(mounts, nodes, Parent(path)) == Found(d) && IsDir(nodes, d)
    requires Search(nodes[d].value.entries, BaseName(path)).None?
    requires var m := nodes[d].value.sb;
             m < |mounts| && mounts[m].used < mounts[m].quota &&
             mounts' == mounts[m := mounts[m].(used := mounts[m].used + ENTRY_CHARGE)]
    ensures Creation(mounts, nodes, mounts', Created(nodes, d, BaseName(path), NewInode(nodes[d].value.sb, directory)),
                     path, directory, Found(|nodes|))
  {
    hide Ok, AllTight, Rooted, Meaning, NewAt;
    NewAtPath(mounts, nodes, up, lost, path, d, NewInode(nodes[d].value.sb, directory));
  }

  lemma CreationFails(mounts: seq<Superblock>, nodes: Inodes, path: string, directory: bool, r: Outcome)
    requires path != "" && Rooted(mounts, nodes) && !r.Found? && !Creatable(mounts, nodes, path)
    ensures Creation(mounts, nodes, mounts, nodes, path, directory, r)
  {
    hide Rooted, Creatable;
  }

  /** Creating an entry in the parent directory. Only vfs_mkdir asks whether it is one. */
  method CreateIn(s: Store, path: string, d: nat, name: string, directory: bool) returns (r: Outcome)
    requires s.Valid() && path != "" && Rooted(s.mounts, s.nodes) && name == BaseName(path)
    requires Meaning(s.mounts, s.nodes, Parent(path)) == Found(d) && Live(s.nodes, d) && s.nodes[d].value.sb < |s.mounts|
    modifies s
    ensures s.Valid() && s.lost == old(s.lost)
    ensures !r.Found? ==> s.up == old(s.up)
    ensures Creation(old(s.mounts), old(s.nodes), s.mounts, s.nodes, path, directory, r)
  {
    hide Ok, AllTight, Search, Rooted, Meaning, Parent, BaseName, Created, Creation;
    if s.nodes[d].value.File? {
      var sb := s.mounts[s.nodes[d].value.sb];
      r := if directory || sb.used >= sb.quota then Missing else Confused;
      CreationFails(s.mounts, s.nodes, path, directory, r);
    } else {
      ghost var mounts, nodes, up, lost := s.mounts, s.nodes, s.up, s.lost;
      var i := s.Create(d, name, directory);
      if i.None? {
        r := Missing;
        CreationFails(mounts, nodes, path, directory, r);
      } else {
        CreationDone(mounts, nodes, up, lost, s.mounts, path, d, directory);
        r := Found(i.value);
      }
    }
  }

  /** Creating the entry that a path names: vfs_mkdir, and the second half of vfs_open_file. */
  method CreateAt(s: Store, path: string, directory: bool) returns (r: Outcome)
    requires s.Valid() && Fits(s.mounts, path)
    modifies s
    ensures s.Valid() && s.lost == old(s.lost)
    ensures !r.Found? ==> s.up == old(s.up)
    ensures Creation(old(s.mounts), old(s.nodes), s.mounts, s.nodes, path, directory, r)
  {
    hide Ok, AllTight, Rooted, Meaning, ShortNames, Parent, BaseName, Creation;
    var parent, name := Split(path);
    var p := Resolve(s, parent);
    if p.Found? {
      MeaningLive(s.mounts, s.nodes, s.up, s.lost, parent);
      r := CreateIn(s, path, p.inode, name, directory);
    } else {
      CreationFails(s.mounts, s.nodes, path, directory, p);
      r := p;
    }
  }

  /** vfs_open_file up to the inode: resolve the path, or create a file in its parent. An inode that
      the code would take for a directory without being one ends the run as Confused. */
  method Obtain(s: Store, path: string, create: bool) returns (r: Outcome)
    requires s.Valid() && Fits(s.mounts, path)
    modifies s
    ensures s.Valid() && s.lost == old(s.lost) && Rooted(old(s.mounts), old(s.nodes))
    ensures var was := Meaning(old(s.mounts), old(s.nodes), path);
            if was == Missing && create then Creation(old(s.mounts), old(s.nodes), s.mounts, s.nodes, path, false, r)
            else r == was && s.nodes == old(s.nodes) && s.mounts == old(s.mounts) && s.up == old(s.up)
  {
    hide Ok, AllTight, Rooted, Meaning, ShortNames, Creation;
    r := Resolve(s, path);
    if r == Missing && create {
      r := CreateAt(s, path, false);
    }
  }

  /** The parent is a directory with room in its mount and without the name. */
  predicate Creatable(mounts: seq<Superblock>, nodes: Inodes, path: string)
    requires Rooted(mounts, nodes) && path != ""
  {
    var p := Meaning(mounts, nodes, Parent(path));
    && p.Found? && IsDir(nodes, p.inode) && nodes[p.inode].value.sb < |mounts|
    && mounts[nodes[p.inode].value.sb].used < mounts[nodes[p.inode].value.sb].quota
    && !Lookup(nodes, p.inode, BaseName(path)).Found?
  }

  lemma RemovalDone(mounts: seq<Superblock>, nodes: Inodes, up: Links, lost: seq<nat>, mounts': seq<Superblock>,
                    path: string, d: nat, i: nat)
    requires path != "" && Ok(mounts, nodes, up, lost) && Rooted(mounts, nodes)
    requires Meaning(mounts, nodes, Parent(path)) == Found(d) && IsDir(nodes, d)
    requires Search(nodes[d].value.entries, BaseName(path)) == Some(i) && Entry(nodes, up, d, i)
    requires var m := nodes[d].value.sb;
             m < |mounts| && mounts[m].used >= ENTRY_CHARGE &&
             mounts' == mounts[m := mounts[m].(used := mounts[m].used - ENTRY_CHARGE)]
    ensures Removal(mounts, nodes, mounts', Deleted(nodes, d, i), path, Found(nodes[d].value.entries[i].inode))
  {
    hide Ok, AllTight, Rooted, Meaning, GoneAt, Search, Named;
    GoneAtPath(mounts, nodes, up, lost, path, d, i);
  }

  lemma RemovalFails(mounts: seq<Superblock>, nodes: Inodes, path: string, p: Outcome, r: Outcome)
    requires path != "" && Rooted(mounts, nodes) && Meaning(mounts, nodes, Parent(path)) == p && !r.Found?
    requires if p.Found? then Live(nodes, p.inode) && r == Lookup(nodes, p.inode, BaseName(path)) else r == p
    ensures Removal(mounts, nodes, mounts, nodes, path, r)
  {
    hide Meaning, Rooted, Lookup;
  }

  /** vfs_delete in the parent directory. */
  method RemoveFrom(s: Store, path: string, d: nat, name: string) returns (r: Outcome)
    requires s.Valid() && path != "" && Rooted(s.mounts, s.nodes) && name == BaseName(path)
    requires Meaning(s.mounts, s.nodes, Parent(path)) == Found(d) && Live(s.nodes, d)
    modifies s
    ensures s.Valid() && s.up == old(s.up)
    ensures Removal(old(s.mounts), old(s.nodes), s.mounts, s.nodes, path, r)
  {
    hide Ok, AllTight, Search, Rooted, Meaning, Parent, BaseName, Deleted, Removal;
    ghost var mounts, nodes, up, lost := s.mounts, s.nodes, s.up, s.lost;
    r := s.Find(d, name);
    if r.Found? {
      var ok := s.Delete(d, name);
      RemovalDone(mounts, nodes, up, lost, s.mounts, path, d, Search(nodes[d].value.entries, name).value);
    } else {
      RemovalFails(mounts, nodes, path, Found(d), r);
    }
  }

  /** vfs_delete. */
  method Remove(s: Store, path: string) returns (r: Outcome)
    requires s.Valid() && Fits(s.mounts, path)
    modifies s
    ensures s.Valid() && s.up == old(s.up)
    ensures Removal(old(s.mounts), old(s.nodes), s.mounts, s.nodes, path, r)
  {
    hide Ok, AllTight, Rooted, Meaning, ShortNames, Parent, BaseName, Removal;
    var parent, name := Split(path);
    var p := Resolve(s, parent);
    if p.Found? {
      MeaningLive(s.mounts, s.nodes, s.up, s.lost, parent);
      r := RemoveFrom(s, path, p.inode, name);
    } else {
      RemovalFails(s.mounts, s.nodes, path, p, p);
      r := p;
    }
  }

  /** Which paths the code treats consistently: those whose mount point lies within the parent part. */
  predicate Regular(mounts: seq<Superblock>, path: string) {
    var o := Owner(Points(mounts), path);
    o.Some? && |mounts[o.value].point| <= ParentEnd(path)
  }

  /** A regular path spells its own place. */
  lemma RegularSpells(mounts: seq<Superblock>, path: string, m: nat, names: seq<string>)
    requires Absolute(path) && |path[LastSlash(path) + 1..]| < 64 && Placed(mounts, path, m, names)
    ensures Regular(mounts, path) && BaseName(path) != "" ==> Spells(mounts, path, m, names)
    ensures !Regular(mounts, path) ==> Owner(Points(mounts), path) != Some(m)
  {
    hide Owner, Components, LastSlash;
    var o := Owner(Points(mounts), path);
    if o.Some? {
      if Regular(mounts, path) {
        SplitComponents(path, |mounts[o.value].point|);
        OwnerOfPrefix(Points(mounts), path, ParentEnd(path));
      } else {
        assert |Parent(path)| <= ParentEnd(path);
      }
    }
  }

  /** After a creation through a path, the path leads to the new inode exactly when it is regular. */
  lemma CreatedResolves(mounts: seq<Superblock>, was: Inodes, now: Inodes, path: string, m: nat, names: seq<string>)
    requires Rooted(mounts, was) && Rooted(mounts, now)
    requires Absolute(path) && |path[LastSlash(path) + 1..]| < 64 && Placed(mounts, path, m, names)
    requires Meaning(mounts, was, path) == Missing && Meaning(mounts, was, Parent(path)).Found?
    requires OnlyCreated(mounts, was, now, m, names, |was|)
    ensures Meaning(mounts, now, path) == Found(|was|) <==> Regular(mounts, path)
  {
    hide Owner, Components, Walk;
    RegularSpells(mounts, path, m, names);
    if Regular(mounts, path) && BaseName(path) == "" { NamelessPath(mounts, was, path); }
  }

  /** A path that ends in a slash means what its parent means. */
  lemma NamelessPath(mounts: seq<Superblock>, nodes: Inodes, path: string)
    requires Rooted(mounts, nodes) && Absolute(path) && Regular(mounts, path) && BaseName(path) == ""
    ensures Meaning(mounts, nodes, path) == Meaning(mounts, nodes, Parent(path))
  {
    hide Owner, Components, Walk, LastSlash;
    var o := Owner(Points(mounts), path).value;
    SplitComponents(path, |mounts[o].point|);
    OwnerOfPrefix(Points(mounts), path, ParentEnd(path));
    assert Below(mounts, o, path) == Below(mounts, o, Parent(path));
  }

  /** The paths have one owner and the same components below it. */
  predicate SameSpelling(mounts: seq<Superblock>, path: string, q: string) {
    var o := Owner(Points(mounts), path);
    o.Some? && Owner(Points(mounts), q) == o && Below(mounts, o.value, q) == Below(mounts, o.value, path)
  }

  /** After a deletion through a regular path nothing is found there any more, however it is spelled. */
  lemma DeletedUnresolvable(mounts: seq<Superblock>, was: Inodes, now: Inodes, path: string, m: nat, names: seq<string>, q: string)
    requires Rooted(mounts, was) && Rooted(mounts, now)
    requires Absolute(path) && |path[LastSlash(path) + 1..]| < 64 && Placed(mounts, path, m, names)
    requires OnlyDeleted(mounts, was, now, m, names)
    requires Regular(mounts, path) && BaseName(path) != ""
    requires SameSpelling(mounts, path, q)
    ensures Meaning(mounts, now, q) == Missing
  {
    hide Owner, Components, Walk;
    RegularSpells(mounts, path, m, names);
  }

  /** With mount points that end at component boundaries, every path but a mount point is regular. */
  lemma BoundedRegular(mounts: seq<Superblock>, path: string)
    requires Absolute(path) && Owner(Points(mounts), path).Some?
    requires var point := mounts[Owner(Points(mounts), path).value].point; Bounded(point, path) && path != point
    ensures Regular(mounts, path)
  {
    BoundedParent(mounts[Owner(Points(mounts), path).value].point, path);
  }

  /** Without boundaries: "/tempx" is created in "/" but looked for in "/temp". */
  lemma IrregularExample(mounts: seq<Superblock>)
    requires |mounts| == 2 && mounts[0].point == "/" && mounts[1].point == "/temp"
    ensures !Regular(mounts, "/tempx") && Parent("/tempx") == "/" && BaseName("/tempx") == "tempx"
  {
    var path := "/tempx";
    assert path[..5] == "/temp" && path[..1] == "/";
    OwnerUnique(Points(mounts), path, 1);
    assert forall j | 0 < j < 6 :: path[j] != '/';
    assert path[1..] == "tempx";
  }

  /** A regular path that was missing leads to what was created through it. */
  lemma CreationResolves(mounts: seq<Superblock>, nodes: Inodes, mounts': seq<Superblock>, nodes': Inodes,
                         path: string, directory: bool, r: Outcome)
    requires Absolute(path) && |path[LastSlash(path) + 1..]| < 64 && Regular(mounts, path)
    requires Creation(mounts, nodes, mounts', nodes', path, directory, r) && r.Found?
    requires Meaning(mounts, nodes, path) == Missing
    ensures Rooted(mounts, nodes') && Meaning(mounts, nodes', path) == r
  {
    hide LastSlash, Meaning, Rooted, Placed, OnlyCreated, Regular, Fresh;
    var m, names :| Placed(mounts, path, m, names) && OnlyCreated(mounts, nodes, nodes', m, names, r.inode);
    CreatedResolves(mounts, nodes, nodes', path, m, names);
  }

  /** Writing or truncating a file leaves every path that leads somewhere leading there. */
  lemma RewrittenMeaning(mounts: seq<Superblock>, nodes: Inodes, up: Links, f: nat, x: Inode, q: string)
    requires Named(nodes, up) && Rooted(mounts, nodes) && IsFile(nodes, f) && x.File? && x.sb == nodes[f].value.sb
    ensures Rooted(mounts, nodes[f := Some(x)])
    ensures Meaning(mounts, nodes, q).Found? ==> Meaning(mounts, nodes[f := Some(x)], q) == Meaning(mounts, nodes, q)
    ensures !Meaning(mounts, nodes, q).Found? ==> !Meaning(mounts, nodes[f := Some(x)], q).Found?
  {
    hide Named, Owner, Components, Walk;
    var o := Owner(Points(mounts), q);
    if o.Some? { RewrittenWalk(nodes, up, f, x, mounts[o.value].root, Below(mounts, o.value, q)); }
  }
}
