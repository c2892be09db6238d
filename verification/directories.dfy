/** The inodes of the mounted shadowFS instances (file_system/shadowfs/shadowfs.c) and the name tree
    their directory entries span. An inode is named by the order of its creation. */
module Directories {
  import opened Wrappers
  import opened Words
  import opened FileChain

  datatype Dentry = Dentry(name: string, inode: nat)

  /** An inode of mount `sb`: a file's block chain or a directory's entry list. */
  datatype Inode =
    | File(sb: nat, size: nat, blocks: seq<Block>, count: nat)
    | Dir(sb: nat, entries: seq<Dentry>, count: nat)

  /** Every inode ever created; freed ones are None. */
  type Inodes = seq<Option<Inode>>

  /** Where an inode is entered: in which directory, under which name. */
  datatype Link = Link(dir: nat, name: string)
  type Links = seq<Option<Link>>

  /** The result of a lookup. shadowfs_lookup does not look at the inode's type: on a file with data
      it takes the block chain for an entry list, which is `Confused` here. */
  datatype Outcome = Found(inode: nat) | Missing | Confused

  predicate Live(nodes: Inodes, i: nat) {
    i < |nodes| && nodes[i].Some?
  }

  predicate IsDir(nodes: Inodes, d: nat) {
    Live(nodes, d) && nodes[d].value.Dir?
  }

  predicate IsFile(nodes: Inodes, i: nat) {
    Live(nodes, i) && nodes[i].value.File?
  }

  /** Entry i of directory d leads to a younger inode of the same mount that is entered nowhere else. */
  predicate EntryOk(nodes: Inodes, up: Links, d: nat, e: Dentry)
    requires |up| == |nodes| && IsDir(nodes, d)
  {
    && d < e.inode && Live(nodes, e.inode) && nodes[e.inode].value.sb == nodes[d].value.sb
    && up[e.inode] == Some(Link(d, e.name))
  }

  predicate DistinctNames(es: seq<Dentry>) {
    forall i, j | 0 <= i < j < |es| :: es[i].name != es[j].name
  }

  predicate DirOk(nodes: Inodes, up: Links, d: nat)
    requires |up| == |nodes| && IsDir(nodes, d)
  {
    var es := nodes[d].value.entries;
    && DistinctNames(es)
    && nodes[d].value.count == |es| % TWO32
    && forall i | 0 <= i < |es| :: EntryOk(nodes, up, d, es[i])
  }

  /** The directory invariant: names are unique in a directory, and every inode has at most one entry. */
  ghost predicate Named(nodes: Inodes, up: Links) {
    && |up| == |nodes|
    && forall d: nat | IsDir(nodes, d) :: DirOk(nodes, up, d)
  }

  /** The position of a name in an entry list. */
  function Search(es: seq<Dentry>, name: string): (r: Option<nat>)
    ensures r.Some? ==> r.value < |es| && es[r.value].name == name && forall i | 0 <= i < r.value :: es[i].name != name
    ensures r.None? ==> forall i | 0 <= i < |es| :: es[i].name != name
  {
    if es == [] then None
    else
      var n := |es| - 1;
      var before := Search(es[..n], name);
      if before.Some? then before
      else if es[n].name == name then Some(n)
      else None
  }

  function Lookup(nodes: Inodes, d: nat, name: string): (r: Outcome)
    requires Live(nodes, d)
  {
    match nodes[d].value
    case File(_, _, blocks, _) => if blocks == [] then Missing else Confused
    case Dir(_, es, _) => (match Search(es, name) case Some(i) => Found(es[i].inode) case None => Missing)
  }

  /** Folding lookup over a sequence of names. */
  function Walk(nodes: Inodes, from: nat, names: seq<string>): (r: Outcome)
    requires Live(nodes, from)
    ensures r.Found? ==> r.inode < |nodes|
  {
    if names == [] then Found(from)
    else
      var n := |names| - 1;
      var before := Walk(nodes, from, names[..n]);
      if before.Found? && Live(nodes, before.inode) then
        var r := Lookup(nodes, before.inode, names[n]);
        if r.Found? && r.inode >= |nodes| then Missing else r
      else before
  }

  /** Entry lists and the tree lead only to live inodes, and each of them names its own entry. */
  lemma LookupLive(nodes: Inodes, up: Links, d: nat, name: string)
    requires Named(nodes, up) && Live(nodes, d)
    ensures var r := Lookup(nodes, d, name);
            r.Found? ==> IsDir(nodes, d) && Live(nodes, r.inode) && up[r.inode] == Some(Link(d, name))
  {
    if nodes[d].value.Dir? {
      var es := nodes[d].value.entries;
      var i := Search(es, name);
      assert DirOk(nodes, up, d);
      if i.Some? { assert EntryOk(nodes, up, d, es[i.value]); }
    }
  }

  lemma {:induction false} WalkLive(nodes: Inodes, up: Links, from: nat, names: seq<string>)
    requires Named(nodes, up) && Live(nodes, from)
    ensures var r := Walk(nodes, from, names); r.Found? ==> Live(nodes, r.inode)
  {
    if names != [] {
      var n := |names| - 1;
      WalkLive(nodes, up, from, names[..n]);
      var before := Walk(nodes, from, names[..n]);
      if before.Found? { LookupLive(nodes, up, before.inode, names[n]); }
    }
  }

  /** One step of the fold. */
  lemma WalkStep(nodes: Inodes, up: Links, from: nat, names: seq<string>)
    requires Named(nodes, up) && Live(nodes, from) && names != []
    ensures var n := |names| - 1;
            var before := Walk(nodes, from, names[..n]);
            if before.Found? then Live(nodes, before.inode) && Walk(nodes, from, names) == Lookup(nodes, before.inode, names[n])
            else Walk(nodes, from, names) == before
  {
    var n := |names| - 1;
    WalkLive(nodes, up, from, names[..n]);
    var before := Walk(nodes, from, names[..n]);
    if before.Found? { LookupLive(nodes, up, before.inode, names[n]); }
  }

  /** Roots are entered in no directory. */
  predicate Root(nodes: Inodes, up: Links, r: nat) {
    |up| == |nodes| && Live(nodes, r) && up[r].None?
  }

  /** An inode is reached from one root under one sequence of names only. */
  lemma {:induction false} UniqueWalk(nodes: Inodes, up: Links, r: nat, a: seq<string>, s: nat, b: seq<string>)
    requires Named(nodes, up) && Root(nodes, up, r) && Root(nodes, up, s)
    requires Walk(nodes, r, a).Found? && Walk(nodes, r, a) == Walk(nodes, s, b)
    ensures r == s && a == b
  {
    hide Named, Lookup, Walk;
    WalkEmpty(nodes, r);
    WalkEmpty(nodes, s);
    if a != [] {
      WalkStep(nodes, up, r, a);
      LookupLive(nodes, up, Walk(nodes, r, a[..|a| - 1]).inode, a[|a| - 1]);
    }
    if b != [] {
      WalkStep(nodes, up, s, b);
      LookupLive(nodes, up, Walk(nodes, s, b[..|b| - 1]).inode, b[|b| - 1]);
    }
    if a != [] && b != [] {
      UniqueWalk(nodes, up, r, a[..|a| - 1], s, b[..|b| - 1]);
      assert a == a[..|a| - 1] + [a[|a| - 1]];
      assert b == b[..|b| - 1] + [b[|b| - 1]];
    }
  }

  lemma WalkEmpty(nodes: Inodes, from: nat)
    requires Live(nodes, from)
    ensures Walk(nodes, from, []) == Found(from)
  {
  }

  // ---- creation ------------------------------------------------------------

  function Entered(d: Inode, e: Dentry): Inode
    requires d.Dir?
  {
    Dir(d.sb, d.entries + [e], (d.count + 1) % TWO32)
  }

  /** Directory d with one more entry, for the new inode x. */
  function Created(nodes: Inodes, d: nat, name: string, x: Inode): Inodes
    requires IsDir(nodes, d)
  {
    nodes[d := Some(Entered(nodes[d].value, Dentry(name, |nodes|)))] + [Some(x)]
  }

  /** A new inode: no data, no entries. */
  predicate Fresh(x: Inode) {
    match x
    case File(_, size, blocks, count) => size == 0 && blocks == [] && count == 0
    case Dir(_, es, count) => es == [] && count == 0
  }

  lemma CreatedNamed(nodes: Inodes, up: Links, d: nat, name: string, x: Inode)
    requires Named(nodes, up) && IsDir(nodes, d) && Fresh(x) && x.sb == nodes[d].value.sb
    requires Search(nodes[d].value.entries, name).None?
    ensures Named(Created(nodes, d, name, x), up + [Some(Link(d, name))])
  {
    var nodes', up' := Created(nodes, d, name, x), up + [Some(Link(d, name))];
    forall c: nat | IsDir(nodes', c) ensures DirOk(nodes', up', c) {
      if c < |nodes| {
        assert IsDir(nodes, c);
        CreatedDirOk(nodes, up, d, name, x, c);
      }
    }
  }

  lemma CreatedDirOk(nodes: Inodes, up: Links, d: nat, name: string, x: Inode, c: nat)
    requires Named(nodes, up) && IsDir(nodes, d) && IsDir(nodes, c) && x.sb == nodes[d].value.sb
    requires Search(nodes[d].value.entries, name).None?
    ensures DirOk(Created(nodes, d, name, x), up + [Some(Link(d, name))], c)
  {
    var nodes', up' := Created(nodes, d, name, x), up + [Some(Link(d, name))];
    var es, es' := nodes[c].value.entries, nodes'[c].value.entries;
    assert DirOk(nodes, up, c);
    hide Named, Search;
    if c == d {
      EnteredDistinct(es, Dentry(name, |nodes|));
      CountUp(|es|);
    }
    forall i | 0 <= i < |es'| ensures EntryOk(nodes', up', c, es'[i]) {
      if i < |es| { assert EntryOk(nodes, up, c, es[i]); }
    }
  }

  lemma CountUp(n: nat)
    ensures (n % TWO32 + 1) % TWO32 == (n + 1) % TWO32
    ensures n > 0 ==> (n % TWO32 - 1) % TWO32 == (n - 1) % TWO32
  {
  }

  lemma EnteredDistinct(es: seq<Dentry>, e: Dentry)
    requires DistinctNames(es) && Search(es, e.name).None?
    ensures DistinctNames(es + [e])
  {
  }

  lemma SearchAppend(es: seq<Dentry>, e: Dentry, name: string)
    ensures Search(es + [e], name) ==
            if Search(es, name).Some? then Search(es, name) else if e.name == name then Some(|es|) else None
  {
    assert (es + [e])[..|es|] == es;
  }

  lemma CreatedLookup(nodes: Inodes, d: nat, name: string, x: Inode, c: nat, n: string)
    requires IsDir(nodes, d) && Fresh(x) && Search(nodes[d].value.entries, name).None?
    requires Live(nodes, c) || c == |nodes|
    ensures Live(Created(nodes, d, name, x), c)
    ensures Lookup(Created(nodes, d, name, x), c, n) ==
            if c == |nodes| then Missing
            else if c == d && n == name then Found(|nodes|)
            else Lookup(nodes, c, n)
  {
    if c == d { SearchAppend(nodes[d].value.entries, Dentry(name, |nodes|), n); }
  }

  /** A creation makes exactly one sequence of names lead to the new inode and changes no other. */
  lemma {:induction false} CreatedWalk(nodes: Inodes, up: Links, d: nat, name: string, x: Inode, r: nat, names: seq<string>)
    requires Named(nodes, up) && IsDir(nodes, d) && Fresh(x) && x.sb == nodes[d].value.sb
    requires Search(nodes[d].value.entries, name).None?
    requires Live(nodes, r)
    ensures Live(Created(nodes, d, name, x), r)
    ensures Walk(Created(nodes, d, name, x), r, names) ==
            if names != [] && names[|names| - 1] == name && Walk(nodes, r, names[..|names| - 1]) == Found(d)
            then Found(|nodes|) else Walk(nodes, r, names)
  {
    var nodes', up' := Created(nodes, d, name, x), up + [Some(Link(d, name))];
    CreatedNamed(nodes, up, d, name, x);
    CreatedLookup(nodes, d, name, x, r, name);
    CreatedLookup(nodes, d, name, x, d, name);
    hide Named, Search, Walk;
    WalkEmpty(nodes, r);
    WalkEmpty(nodes', r);
    if names != [] {
      var init, last := names[..|names| - 1], names[|names| - 1];
      CreatedWalk(nodes, up, d, name, x, r, init);
      WalkStep(nodes', up', r, names);
      WalkStep(nodes, up, r, names);
      var before := Walk(nodes', r, init);
      if before.Found? { CreatedLookup(nodes, d, name, x, before.inode, last); }
      if init != [] { WalkStep(nodes, up, r, init); }
      hide Created;
    }
  }

  // ---- deletion ------------------------------------------------------------

  function Unlinked(d: Inode, i: nat): Inode
    requires d.Dir? && i < |d.entries|
  {
    Dir(d.sb, d.entries[..i] + d.entries[i + 1..], (d.count - 1) % TWO32)
  }

  /** Directory d without its entry i, and the entry's inode freed. */
  function Deleted(nodes: Inodes, d: nat, i: nat): Inodes
    requires IsDir(nodes, d) && i < |nodes[d].value.entries| && nodes[d].value.entries[i].inode < |nodes|
  {
    nodes[d := Some(Unlinked(nodes[d].value, i))][nodes[d].value.entries[i].inode := None]
  }

  ghost predicate Entry(nodes: Inodes, up: Links, d: nat, i: nat) {
    Named(nodes, up) && IsDir(nodes, d) && i < |nodes[d].value.entries| &&
    EntryOk(nodes, up, d, nodes[d].value.entries[i])
  }

  lemma DeletedNamed(nodes: Inodes, up: Links, d: nat, i: nat)
    requires Entry(nodes, up, d, i)
    ensures Named(Deleted(nodes, d, i), up)
  {
    var nodes' := Deleted(nodes, d, i);
    forall c: nat | IsDir(nodes', c) ensures DirOk(nodes', up, c) {
      assert IsDir(nodes, c);
      DeletedDirOk(nodes, up, d, i, c);
    }
  }

  lemma DeletedDirOk(nodes: Inodes, up: Links, d: nat, i: nat, c: nat)
    requires Entry(nodes, up, d, i) && IsDir(nodes, c) && c != nodes[d].value.entries[i].inode
    ensures DirOk(Deleted(nodes, d, i), up, c)
  {
    var nodes' := Deleted(nodes, d, i);
    assert DirOk(nodes, up, c) && DirOk(nodes, up, d);
    hide Named;
    var es, es' := nodes[c].value.entries, nodes'[c].value.entries;
    if c == d {
      RemovedDistinct(es, i);
      CountUp(|es|);
    }
    forall j | 0 <= j < |es'| ensures EntryOk(nodes', up, c, es'[j]) {
      var was := if c == d && j >= i then j + 1 else j;
      assert es'[j] == es[was];
      assert EntryOk(nodes, up, c, es[was]);
    }
  }

  lemma SearchUnique(es: seq<Dentry>, k: nat)
    requires DistinctNames(es) && k < |es|
    ensures Search(es, es[k].name) == Some(k)
  {
    hide Search;
  }

  lemma RemovedDistinct(es: seq<Dentry>, i: nat)
    requires i < |es| && DistinctNames(es)
    ensures DistinctNames(es[..i] + es[i + 1..])
  {
  }

  lemma RemovedAbsent(es: seq<Dentry>, i: nat, name: string)
    requires i < |es| && forall j | 0 <= j < |es| && j != i :: es[j].name != name
    ensures Search(es[..i] + es[i + 1..], name).None?
  {
    hide Search;
    var rest := es[..i] + es[i + 1..];
    assert forall j | 0 <= j < |rest| :: rest[j] == es[if j < i then j else j + 1];
  }

  lemma SearchRemoved(es: seq<Dentry>, i: nat, name: string)
    requires i < |es| && DistinctNames(es)
    ensures var r := Search(es[..i] + es[i + 1..], name);
            if name == es[i].name then r.None?
            else r.Some? == Search(es, name).Some? &&
                 (r.Some? ==> (es[..i] + es[i + 1..])[r.value] == es[Search(es, name).value])
  {
    hide Search;
    var s := Search(es, name);
    if name == es[i].name || s.None? {
      RemovedAbsent(es, i, name);
    } else {
      var at := if s.value < i then s.value else s.value - 1;
      RemovedDistinct(es, i);
      assert (es[..i] + es[i + 1..])[at] == es[s.value];
      SearchUnique(es[..i] + es[i + 1..], at);
    }
  }

  lemma DeletedLookup(nodes: Inodes, up: Links, d: nat, i: nat, c: nat, n: string)
    requires Entry(nodes, up, d, i)
    requires Live(nodes, c) && c != nodes[d].value.entries[i].inode
    ensures Live(Deleted(nodes, d, i), c)
    ensures Lookup(Deleted(nodes, d, i), c, n) ==
            if c == d && n == nodes[d].value.entries[i].name then Missing else Lookup(nodes, c, n)
  {
    assert DirOk(nodes, up, d);
    hide Named;
    if c == d { SearchRemoved(nodes[d].value.entries, i, n); }
  }

  /** The names lead through p. */
  predicate Under(p: seq<string>, names: seq<string>) {
    p <= names
  }

  /** A deletion makes exactly the names through the deleted entry unresolvable. */
  lemma {:induction false} DeletedWalk(nodes: Inodes, up: Links, d: nat, i: nat, p: seq<string>, r: nat, s: nat, names: seq<string>)
    requires Entry(nodes, up, d, i) && Root(nodes, up, r) && Root(nodes, up, s)
    requires p != [] && Walk(nodes, r, p[..|p| - 1]) == Found(d) && p[|p| - 1] == nodes[d].value.entries[i].name
    ensures Live(Deleted(nodes, d, i), s)
    ensures Walk(Deleted(nodes, d, i), s, names) ==
            if s == r && Under(p, names) then Missing else Walk(nodes, s, names)
  {
    var nodes', k := Deleted(nodes, d, i), nodes[d].value.entries[i].inode;
    DeletedNamed(nodes, up, d, i);
    FoundEntry(nodes, up, d, i);
    DeletedLookup(nodes, up, d, i, s, "");
    hide Search, Walk, Lookup, Deleted, Named, Under;
    NotUnder(p);
    WalkEmpty(nodes, s);
    WalkEmpty(nodes', s);
    WalkStep(nodes, up, r, p);
    if names != [] {
      var init, last := names[..|names| - 1], names[|names| - 1];
      assert names == init + [last];
      PrefixSnoc(p, init, last);
      DeletedWalk(nodes, up, d, i, p, r, s, init);
      WalkStep(nodes', up, s, names);
      WalkStep(nodes, up, s, names);
      if s == r && Under(p, init) {
      } else {
        var before := Walk(nodes, s, init);
        if before == Found(k) { UniqueWalk(nodes, up, r, p, s, init); }
        if before == Found(d) { UniqueWalk(nodes, up, r, p[..|p| - 1], s, init); }
        if before.Found? { DeletedLookup(nodes, up, d, i, before.inode, last); }
      }
    }
  }

  lemma PrefixSnoc(p: seq<string>, init: seq<string>, last: string)
    ensures Under(p, init + [last]) <==> Under(p, init) || p == init + [last]
    ensures Under(p, p)
  {
  }

  lemma NotUnder(p: seq<string>)
    requires p != []
    ensures !Under(p, [])
  {
  }

  lemma FoundEntry(nodes: Inodes, up: Links, d: nat, i: nat)
    requires Entry(nodes, up, d, i)
    ensures Lookup(nodes, d, nodes[d].value.entries[i].name) == Found(nodes[d].value.entries[i].inode)
  {
    assert DirOk(nodes, up, d);
  }

  /** Creating an entry and deleting it again restores every inode. */
  lemma CreateThenDelete(nodes: Inodes, d: nat, name: string, x: Inode)
    requires IsDir(nodes, d) && nodes[d].value.count < TWO32
    ensures Deleted(Created(nodes, d, name, x), d, |nodes[d].value.entries|) == nodes + [None]
  {
    var c, nodes' := nodes[d].value, Created(nodes, d, name, x);
    var n := |c.entries|;
    assert nodes'[d].value.entries[..n] + nodes'[d].value.entries[n + 1..] == c.entries;
    CountUp(c.count + 1);
    assert Unlinked(nodes'[d].value, n) == c;
  }

  // ---- file data -----------------------------------------------------------

  lemma RewrittenNamed(nodes: Inodes, up: Links, f: nat, x: Inode)
    requires Named(nodes, up) && IsFile(nodes, f) && x.File? && x.sb == nodes[f].value.sb
    ensures Named(nodes[f := Some(x)], up)
  {
    var nodes' := nodes[f := Some(x)];
    forall d: nat | IsDir(nodes', d) ensures DirOk(nodes', up, d) {
      assert IsDir(nodes, d) && DirOk(nodes, up, d);
      var es := nodes[d].value.entries;
      forall i | 0 <= i < |es| ensures EntryOk(nodes', up, d, es[i]) {
        assert EntryOk(nodes, up, d, es[i]);
      }
    }
  }

  /** Writing or truncating a file changes what no names lead to. */
  lemma {:induction false} RewrittenWalk(nodes: Inodes, up: Links, f: nat, x: Inode, r: nat, names: seq<string>)
    requires Named(nodes, up) && IsFile(nodes, f) && x.File? && x.sb == nodes[f].value.sb && Live(nodes, r)
    ensures Live(nodes[f := Some(x)], r)
    ensures Walk(nodes[f := Some(x)], r, names).Found? == Walk(nodes, r, names).Found?
    ensures Walk(nodes, r, names).Found? ==> Walk(nodes[f := Some(x)], r, names) == Walk(nodes, r, names)
  {
    var nodes' := nodes[f := Some(x)];
    RewrittenNamed(nodes, up, f, x);
    hide Named, Walk, Search;
    WalkEmpty(nodes, r);
    WalkEmpty(nodes', r);
    if names != [] {
      RewrittenWalk(nodes, up, f, x, r, names[..|names| - 1]);
      WalkStep(nodes, up, r, names);
      WalkStep(nodes', up, r, names);
    }
  }
}
