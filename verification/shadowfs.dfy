/** shadowFS (file_system/shadowfs/shadowfs.c): files, directories and the quota of every mount. */
module ShadowFs {
  import opened Wrappers
  import opened Words
  import opened FileChain
  import opened Directories

  const MAX_MOUNTS: nat := 16
  const MAX_NAME: nat := 64

  /** sizeof(shadowfs_dentry_t) + sizeof(inode_t), what the quota is charged for one entry. */
  const ENTRY_CHARGE: nat := 144

  const TWO31: nat := 0x8000_0000

  datatype Superblock = Superblock(point: string, root: nat, quota: nat, used: nat)

  function Blocks(x: Inode): nat {
    if x.File? then |x.blocks| else 0
  }

  /** What an inode costs mount m. */
  function Weight(x: Option<Inode>, m: nat): nat {
    if x.None? || x.value.sb != m then 0
    else ENTRY_CHARGE + BLOCK_CHARGE * Blocks(x.value)
  }

  function Charge(nodes: Inodes, m: nat): nat {
    if nodes == [] then 0 else Charge(nodes[..|nodes| - 1], m) + Weight(nodes[|nodes| - 1], m)
  }

  lemma ChargeSnoc(nodes: Inodes, x: Option<Inode>, m: nat)
    ensures Charge(nodes + [x], m) == Charge(nodes, m) + Weight(x, m)
  {
    assert (nodes + [x])[..|nodes|] == nodes;
  }

  lemma {:induction false} ChargeUpdate(nodes: Inodes, i: nat, x: Option<Inode>, m: nat)
    requires i < |nodes|
    ensures Charge(nodes[i := x], m) + Weight(nodes[i], m) == Charge(nodes, m) + Weight(x, m)
  {
    var n := |nodes| - 1;
    if i == n {
      assert nodes[i := x][..n] == nodes[..n];
    } else {
      assert nodes[i := x][..n] == nodes[..n][i := x];
      ChargeUpdate(nodes[..n], i, x, m);
    }
  }

  /** Two different inodes are charged for separately. */
  lemma ChargeTwo(nodes: Inodes, i: nat, j: nat, m: nat)
    requires i < |nodes| && j < |nodes| && i != j
    ensures Weight(nodes[i], m) + Weight(nodes[j], m) <= Charge(nodes, m)
  {
    ChargeUpdate(nodes, i, None, m);
    ChargeUpdate(nodes[i := None], j, None, m);
  }

  lemma {:induction false} ChargeNothing(nodes: Inodes, m: nat)
    requires forall i | 0 <= i < |nodes| :: Weight(nodes[i], m) == 0
    ensures Charge(nodes, m) == 0
  {
    if nodes != [] { ChargeNothing(nodes[..|nodes| - 1], m); }
  }

  /** Every inode belongs to a mount, and every file's data is a well-formed chain. */
  predicate InodeOk(mounts: nat, x: Inode) {
    x.sb < mounts && (x.File? ==> Chain(x.blocks) && x.count == |x.blocks| % TWO32 && x.size < TWO32)
  }

  predicate InodesOk(mounts: nat, nodes: Inodes) {
    forall i | 0 <= i < |nodes| :: nodes[i].Some? ==> InodeOk(mounts, nodes[i].value)
  }

  /** The books of mount m: what is used is what the entries (all inodes but the root) and their
      blocks cost, plus the blocks that went with the files deleted while they held data. */
  predicate MountOk(sb: Superblock, m: nat, nodes: Inodes, up: Links, lost: nat) {
    && Root(nodes, up, sb.root) && nodes[sb.root].value.Dir? && nodes[sb.root].value.sb == m
    && sb.quota < TWO31
    && sb.used + ENTRY_CHARGE == Charge(nodes, m) + BLOCK_CHARGE * lost
    && sb.used < sb.quota + ENTRY_CHARGE
  }

  predicate MountsOk(mounts: seq<Superblock>, nodes: Inodes, up: Links, lost: seq<nat>) {
    && |lost| == |mounts|
    && forall m | 0 <= m < |mounts| :: MountOk(mounts[m], m, nodes, up, lost[m])
  }

  ghost predicate Ok(mounts: seq<Superblock>, nodes: Inodes, up: Links, lost: seq<nat>) {
    Named(nodes, up) && InodesOk(|mounts|, nodes) && MountsOk(mounts, nodes, up, lost)
  }

  /** The recorded size is the number of bytes in the chain. */
  predicate Tight(x: Inode) {
    x.File? ==> x.size == |Contents(x.blocks)|
  }

  /** File y is file x with the first `written` bytes of buf at its end. */
  predicate Appended(x: Inode, y: Inode, buf: seq<Byte>, written: nat)
    requires x.File? && y.File?
  {
    && y.sb == x.sb && written <= |buf|
    && Contents(y.blocks) == Contents(x.blocks) + buf[..written]
    && y.size == (x.size + written) % TWO32
  }

  /** File y is file x cut to `size` bytes; a size beyond the data changes only what is recorded. */
  predicate Cut(x: Inode, y: Inode, size: nat)
    requires x.File? && y.File?
  {
    && y.sb == x.sb && y.size == size
    && Contents(y.blocks) == if size <= |Contents(x.blocks)| then Contents(x.blocks)[..size] else Contents(x.blocks)
  }

  /** Only the mount of the file is charged, by the difference in blocks. */
  predicate Recharged(was: seq<Superblock>, now: seq<Superblock>, x: Inode, y: Inode)
    requires x.File? && y.File?
  {
    && |now| == |was| && x.sb < |was|
    && now == was[x.sb := was[x.sb].(used := now[x.sb].used)]
    && now[x.sb].used + BLOCK_CHARGE * |x.blocks| == was[x.sb].used + BLOCK_CHARGE * |y.blocks|
  }

  /** The quota has room for n more bytes of file x. */
  predicate Roomy(mounts: seq<Superblock>, x: Inode, n: nat)
    requires x.File? && x.sb < |mounts|
  {
    n == 0 || mounts[x.sb].used + Overhead(x.blocks, n) < mounts[x.sb].quota
  }

  function NewInode(sb: nat, directory: bool): (x: Inode)
    ensures Fresh(x) && x.sb == sb && Tight(x)
  {
    if directory then Dir(sb, [], 0) else File(sb, 0, [], 0)
  }

  /** In every reachable state the block count of a file is exact: the quota is too small for it to wrap. */
  lemma BlockCountExact(mounts: seq<Superblock>, nodes: Inodes, up: Links, lost: seq<nat>, i: nat)
    requires Ok(mounts, nodes, up, lost) && IsFile(nodes, i)
    ensures nodes[i].value.count == |nodes[i].value.blocks|
    ensures BLOCK_CHARGE * |nodes[i].value.blocks| <= mounts[nodes[i].value.sb].used
  {
    hide Named, Chain;
    var m := nodes[i].value.sb;
    assert MountOk(mounts[m], m, nodes, up, lost[m]);
    ChargeTwo(nodes, i, mounts[m].root, m);
  }

  lemma OkCreated(mounts: seq<Superblock>, nodes: Inodes, up: Links, lost: seq<nat>, d: nat, name: string, x: Inode)
    requires Ok(mounts, nodes, up, lost) && IsDir(nodes, d) && Fresh(x) && x.sb == nodes[d].value.sb
    requires Search(nodes[d].value.entries, name).None?
    requires mounts[x.sb].used < mounts[x.sb].quota
    ensures var sb := mounts[x.sb];
            Ok(mounts[x.sb := sb.(used := sb.used + ENTRY_CHARGE)], Created(nodes, d, name, x),
               up + [Some(Link(d, name))], lost)
  {
    CreatedNamed(nodes, up, d, name, x);
    hide Named, Search, Chain;
    var nodes', up' := Created(nodes, d, name, x), up + [Some(Link(d, name))];
    var mounts' := mounts[x.sb := mounts[x.sb].(used := mounts[x.sb].used + ENTRY_CHARGE)];
    forall m | 0 <= m < |mounts'| ensures MountOk(mounts'[m], m, nodes', up', lost[m]) {
      assert MountOk(mounts[m], m, nodes, up, lost[m]);
      var entered := Entered(nodes[d].value, Dentry(name, |nodes|));
      ChargeUpdate(nodes, d, Some(entered), m);
      ChargeSnoc(nodes[d := Some(entered)], Some(x), m);
    }
    FreshChain(x);
  }

  lemma FreshChain(x: Inode)
    requires Fresh(x)
    ensures x.File? ==> Chain(x.blocks)
  {
  }

  lemma OkDeleted(mounts: seq<Superblock>, nodes: Inodes, up: Links, lost: seq<nat>, d: nat, i: nat)
    requires Ok(mounts, nodes, up, lost) && IsDir(nodes, d) && i < |nodes[d].value.entries|
    requires Entry(nodes, up, d, i)
    ensures var m := nodes[d].value.sb;
            var x := nodes[nodes[d].value.entries[i].inode].value;
            && ENTRY_CHARGE <= mounts[m].used
            && Ok(mounts[m := mounts[m].(used := mounts[m].used - ENTRY_CHARGE)], Deleted(nodes, d, i), up,
                  lost[m := lost[m] + Blocks(x)])
  {
    DeletedNamed(nodes, up, d, i);
    hide Named, Chain;
    var nodes' := Deleted(nodes, d, i);
    var k := nodes[d].value.entries[i].inode;
    var x := nodes[k].value;
    var b := nodes[d].value.sb;
    assert MountOk(mounts[b], b, nodes, up, lost[b]);
    ChargeTwo(nodes, k, mounts[b].root, b);
    var mounts' := mounts[b := mounts[b].(used := mounts[b].used - ENTRY_CHARGE)];
    var lost' := lost[b := lost[b] + Blocks(x)];
    forall m | 0 <= m < |mounts'| ensures MountOk(mounts'[m], m, nodes', up, lost'[m]) {
      assert MountOk(mounts[m], m, nodes, up, lost[m]);
      var unlinked := Unlinked(nodes[d].value, i);
      ChargeUpdate(nodes, d, Some(unlinked), m);
      ChargeUpdate(nodes[d := Some(unlinked)], k, None, m);
    }
  }

  /** Replacing a file's data and charging the difference. */
  lemma OkRewritten(mounts: seq<Superblock>, nodes: Inodes, up: Links, lost: seq<nat>, f: nat, x: Inode, used: nat)
    requires Ok(mounts, nodes, up, lost) && IsFile(nodes, f)
    requires x.File? && x.sb == nodes[f].value.sb && InodeOk(|mounts|, x)
    requires used + BLOCK_CHARGE * |nodes[f].value.blocks| == mounts[x.sb].used + BLOCK_CHARGE * |x.blocks|
    requires used <= mounts[x.sb].used || used < mounts[x.sb].quota + ENTRY_CHARGE
    ensures Ok(mounts[x.sb := mounts[x.sb].(used := used)], nodes[f := Some(x)], up, lost)
  {
    RewrittenNamed(nodes, up, f, x);
    hide Named, Chain;
    var nodes' := nodes[f := Some(x)];
    var mounts' := mounts[x.sb := mounts[x.sb].(used := used)];
    forall m | 0 <= m < |mounts'| ensures MountOk(mounts'[m], m, nodes', up, lost[m]) {
      assert MountOk(mounts[m], m, nodes, up, lost[m]);
      ChargeUpdate(nodes, f, Some(x), m);
    }
  }

  lemma OkMounted(mounts: seq<Superblock>, nodes: Inodes, up: Links, lost: seq<nat>, point: string, quota: nat)
    requires Ok(mounts, nodes, up, lost) && quota < TWO31
    ensures Ok(mounts + [Superblock(point, |nodes|, quota, 0)], nodes + [Some(NewInode(|mounts|, true))],
               up + [None], lost + [0])
  {
    hide Chain;
    var n := |mounts|;
    var root := Some(NewInode(n, true));
    var mounts', nodes', up', lost' := mounts + [Superblock(point, |nodes|, quota, 0)], nodes + [root], up + [None], lost + [0];
    MountedNamed(nodes, up, n);
    hide Named;
    forall m | 0 <= m < |mounts'| ensures MountOk(mounts'[m], m, nodes', up', lost'[m]) {
      ChargeSnoc(nodes, root, m);
      if m < n {
        assert MountOk(mounts[m], m, nodes, up, lost[m]);
      } else {
        ChargeNothing(nodes, m);
      }
    }
  }

  lemma MountedNamed(nodes: Inodes, up: Links, m: nat)
    requires Named(nodes, up)
    ensures Named(nodes + [Some(NewInode(m, true))], up + [None])
  {
    var nodes', up' := nodes + [Some(NewInode(m, true))], up + [None];
    forall d: nat | IsDir(nodes', d) ensures DirOk(nodes', up', d) {
      if d < |nodes| {
        assert IsDir(nodes, d) && DirOk(nodes, up, d);
        var es := nodes[d].value.entries;
        forall i | 0 <= i < |es| ensures EntryOk(nodes', up', d, es[i]) {
          assert EntryOk(nodes, up, d, es[i]);
        }
      }
    }
  }

  /** All mounted instances: their inodes live side by side in the kernel heap. */
  class Store {
    var mounts: seq<Superblock>
    var nodes: Inodes
    /** Where each inode was entered. */
    ghost var up: Links
    /** Per mount, the blocks freed by deleting files that still held data; their charge stays. */
    ghost var lost: seq<nat>
    /** No truncation has extended a file, and no file has outgrown 32 bits. */
    ghost var tidy: bool

    /** In a tidy run the recorded size of every file is the number of its bytes. */
    ghost predicate Valid()
      reads this
    {
      Ok(mounts, nodes, up, lost) && (tidy ==> AllTight(nodes))
    }

    constructor ()
      ensures Valid() && mounts == [] && nodes == [] && tidy
    {
      mounts, nodes, up, lost, tidy := [], [], [], [], true;
    }

    /** shadowfs_mount with vfs_mount: refused for a full table, a point in use, or a quota above half
        of the free memory as a 32-bit byte count. */
    method Mount(point: string, quota: nat, freePages: nat) returns (ok: bool)
      requires Valid() && |point| < MAX_NAME && quota < TWO32
      modifies this
      ensures Valid() && tidy == old(tidy)
      ensures ok <==> quota <= freePages * 4096 % TWO32 / 2 && |old(mounts)| < MAX_MOUNTS &&
                      forall m | 0 <= m < |old(mounts)| :: old(mounts)[m].point != point
      ensures !ok ==> mounts == old(mounts) && nodes == old(nodes) && up == old(up) && lost == old(lost)
      ensures ok ==> mounts == old(mounts) + [Superblock(point, |old(nodes)|, quota, 0)]
      ensures ok ==> nodes == old(nodes) + [Some(Dir(|old(mounts)|, [], 0))]
      ensures ok ==> up == old(up) + [None] && lost == old(lost) + [0]
    {
      hide Ok;
      if quota > freePages * 4096 % TWO32 / 2 || |mounts| >= MAX_MOUNTS { return false; }
      for m := 0 to |mounts|
        invariant forall j | 0 <= j < m :: mounts[j].point != point
      {
        if mounts[m].point == point { return false; }
      }
      OkMounted(mounts, nodes, up, lost, point, quota);
      ok, mounts, nodes := true, mounts + [Superblock(point, |nodes|, quota, 0)], nodes + [Some(NewInode(|mounts|, true))];
      up, lost := up + [None], lost + [0];
    }

    /** The list walk shared by shadowfs_lookup, shadowfs_create and shadowfs_delete. */
    method FindEntry(es: seq<Dentry>, name: string) returns (r: Option<nat>)
      ensures r == Search(es, name)
    {
      for i := 0 to |es|
        invariant Search(es[..i], name).None?
      {
        assert es[..i + 1][..i] == es[..i];
        if es[i].name == name {
          SearchFirst(es, i, name);
          return Some(i);
        }
      }
      assert es[..|es|] == es;
      return None;
    }

    method Find(d: nat, name: string) returns (r: Outcome)
      requires Live(nodes, d)
      ensures r == Lookup(nodes, d, name)
    {
      match nodes[d].value
      case File(_, _, blocks, _) =>
        r := if blocks == [] then Missing else Confused;
      case Dir(_, es, _) =>
        var i := FindEntry(es, name);
        r := if i.Some? then Found(es[i.value].inode) else Missing;
    }

    /** shadowfs_create. */
    method Create(d: nat, name: string, directory: bool) returns (r: Option<nat>)
      requires Valid() && IsDir(nodes, d) && |name| < MAX_NAME
      modifies this
      ensures Valid() && tidy == old(tidy)
      ensures nodes == old(nodes) || r.Some?
      ensures var m := old(nodes)[d].value.sb;
              && m < |old(mounts)|
              && (r.None? <==> old(mounts)[m].used >= old(mounts)[m].quota || Lookup(old(nodes), d, name).Found?)
              && (r.None? ==> mounts == old(mounts) && nodes == old(nodes) && up == old(up) && lost == old(lost))
              && (r.Some? ==>
                    && r.value == |old(nodes)|
                    && Search(old(nodes)[d].value.entries, name).None?
                    && nodes == Created(old(nodes), d, name, NewInode(m, directory))
                    && up == old(up) + [Some(Link(d, name))] && lost == old(lost)
                    && mounts == old(mounts)[m := old(mounts)[m].(used := old(mounts)[m].used + ENTRY_CHARGE)])
    {
      SbInRange(mounts, nodes, up, lost, d);
      hide Ok, Search;
      var m := nodes[d].value.sb;
      if mounts[m].used >= mounts[m].quota { return None; }
      var i := FindEntry(nodes[d].value.entries, name);
      if i.Some? { return None; }
      OkCreated(mounts, nodes, up, lost, d, name, NewInode(m, directory));
      if tidy { TightCreated(nodes, d, name, NewInode(m, directory)); }
      hide AllTight, Tight;
      r := Some(|nodes|);
      mounts := mounts[m := mounts[m].(used := mounts[m].used + ENTRY_CHARGE)];
      nodes := Created(nodes, d, name, NewInode(m, directory));
      up := up + [Some(Link(d, name))];
    }

    /** shadowfs_delete: of a file or of a directory, empty or not. */
    method Delete(d: nat, name: string) returns (ok: bool)
      requires Valid() && IsDir(nodes, d)
      modifies this
      ensures Valid() && up == old(up) && tidy == old(tidy)
      ensures ok <==> Lookup(old(nodes), d, name).Found?
      ensures !ok ==> mounts == old(mounts) && nodes == old(nodes) && lost == old(lost)
      ensures ok ==>
                var i := Search(old(nodes)[d].value.entries, name).value;
                var m := old(nodes)[d].value.sb;
                && Entry(old(nodes), up, d, i)
                && m < |old(mounts)| && old(mounts)[m].used >= ENTRY_CHARGE
                && nodes == Deleted(old(nodes), d, i)
                && mounts == old(mounts)[m := old(mounts)[m].(used := old(mounts)[m].used - ENTRY_CHARGE)]
                && m < |old(lost)|
                && lost == old(lost)[m := old(lost)[m] + Blocks(old(nodes)[old(nodes)[d].value.entries[i].inode].value)]
    {
      SbInRange(mounts, nodes, up, lost, d);
      hide Search;
      var es, m := nodes[d].value.entries, nodes[d].value.sb;
      var i := FindEntry(es, name);
      if i.None? { return false; }
      EntryAt(nodes, up, d, i.value);
      OkDeleted(mounts, nodes, up, lost, d, i.value);
      if tidy { TightDeleted(nodes, d, i.value); }
      hide Ok, AllTight, Tight;
      var x := nodes[es[i.value].inode].value;
      ok := true;
      mounts := mounts[m := mounts[m].(used := mounts[m].used - ENTRY_CHARGE)];
      lost := lost[m := lost[m] + Blocks(x)];
      nodes := Deleted(nodes, d, i.value);
    }

    /** shadowfs_read, at any position. */
    method Read(i: nat, position: nat, count: nat) returns (bytes: seq<Byte>)
      requires Valid() && IsFile(nodes, i)
      requires |Contents(nodes[i].value.blocks)| <= nodes[i].value.size
      requires position < TWO32 && count < TWO32
      ensures bytes == Slice(Contents(nodes[i].value.blocks), position, count)
      ensures ReadAt(bytes, Contents(nodes[i].value.blocks), position, count)
    {
      FileOk(mounts, nodes, up, lost, i);
      hide Ok, Slice, Contents, ReadAt;
      bytes := ReadChain(nodes[i].value.blocks, nodes[i].value.size, position, count);
    }

    /** File i takes new data, and its mount is charged `used` now. */
    method Rewrite(i: nat, y: Inode, used: nat)
      requires Valid() && IsFile(nodes, i) && y.File? && y.sb == nodes[i].value.sb && InodeOk(|mounts|, y)
      requires used + BLOCK_CHARGE * |nodes[i].value.blocks| == mounts[y.sb].used + BLOCK_CHARGE * |y.blocks|
      requires used <= mounts[y.sb].used || used < mounts[y.sb].quota + ENTRY_CHARGE
      modifies this
      ensures Valid() && up == old(up) && lost == old(lost) && tidy == (old(tidy) && Tight(y))
      ensures nodes == old(nodes)[i := Some(y)]
      ensures Recharged(old(mounts), mounts, old(nodes)[i].value, y)
    {
      hide Ok, Chain;
      OkRewritten(mounts, nodes, up, lost, i, y, used);
      if tidy { TightRewritten(nodes, i, y); }
      hide AllTight, Tight;
      tidy := tidy && Tight(y);
      mounts := mounts[y.sb := mounts[y.sb].(used := used)];
      nodes := nodes[i := Some(y)];
    }

    /** shadowfs_write: it appends what the quota lets it, whatever the position. */
    method Write(i: nat, buf: seq<Byte>) returns (written: nat)
      requires Valid() && IsFile(nodes, i)
      modifies this
      ensures Valid() && up == old(up) && lost == old(lost)
      ensures IsFile(nodes, i) && nodes == old(nodes)[i := nodes[i]]
      ensures Appended(old(nodes)[i].value, nodes[i].value, buf, written)
      ensures Recharged(old(mounts), mounts, old(nodes)[i].value, nodes[i].value)
      ensures old(nodes)[i].value.sb < |old(mounts)|
      ensures written == |buf| <==> Roomy(old(mounts), old(nodes)[i].value, |buf|)
      ensures tidy == (old(tidy) && |Contents(nodes[i].value.blocks)| < TWO32)
    {
      hide Ok, Contents, Overhead, Chain, Recharged;
      FileOk(mounts, nodes, up, lost, i);
      var x := nodes[i].value;
      var blocks, used;
      blocks, used, written := AppendChain(x.blocks, mounts[x.sb].used, mounts[x.sb].quota, buf);
      CountAfter(x.count, |x.blocks|, |blocks|);
      var y := File(x.sb, (x.size + written) % TWO32, blocks, (x.count + |blocks| - |x.blocks|) % TWO32);
      if tidy {
        TightAt(nodes, i);
        WriteTight(x, y, buf, written);
      }
      hide AllTight;
      Rewrite(i, y, used);
    }

    /** shadowfs_truncate. */
    method Truncate(i: nat, size: nat) returns (ok: bool)
      requires Valid() && Live(nodes, i) && size < TWO32
      modifies this
      ensures Valid() && up == old(up) && lost == old(lost)
      ensures ok <==> IsFile(old(nodes), i)
      ensures !ok ==> mounts == old(mounts) && nodes == old(nodes) && tidy == old(tidy)
      ensures ok ==> tidy == (old(tidy) && size <= |Contents(old(nodes)[i].value.blocks)|)
      ensures ok ==> IsFile(nodes, i) && nodes == old(nodes)[i := nodes[i]]
      ensures ok ==> Cut(old(nodes)[i].value, nodes[i].value, size)
      ensures ok ==> Recharged(old(mounts), mounts, old(nodes)[i].value, nodes[i].value)
    {
      hide Ok, Contents, Chain, Recharged;
      if nodes[i].value.Dir? { return false; }
      FileOk(mounts, nodes, up, lost, i);
      BlockCountExact(mounts, nodes, up, lost, i);
      var x := nodes[i].value;
      var blocks, used := TruncateChain(x.blocks, mounts[x.sb].used, size);
      if size == 0 { EmptyChain(blocks); }
      var count := if size == 0 then 0 else x.count - (|x.blocks| - |blocks|);
      SmallCount(|blocks|, x.count);
      TruncateTight(x, File(x.sb, size, blocks, count), size);
      hide AllTight, Tight;
      Rewrite(i, File(x.sb, size, blocks, count), used);
      ok := true;
    }
  }

  lemma EmptyChain(bs: seq<Block>)
    requires Chain(bs) && Contents(bs) == []
    ensures bs == []
  {
    ChainLength(bs);
  }

  /** The exact condition under which truncation keeps the recorded size true: it must not extend. */
  lemma TruncateTight(x: Inode, y: Inode, size: nat)
    requires x.File? && y.File? && Cut(x, y, size)
    ensures Tight(y) <==> size <= |Contents(x.blocks)|
  {
    hide Contents;
  }

  /** Writing keeps the recorded size true unless the file outgrows 32 bits. */
  lemma WriteTight(x: Inode, y: Inode, buf: seq<Byte>, written: nat)
    requires x.File? && y.File? && Appended(x, y, buf, written) && Tight(x)
    ensures Tight(y) <==> |Contents(x.blocks)| + written < TWO32
  {
    hide Contents;
  }

  /** Extending a file by truncation: the size grows, the data does not. */
  lemma ExtendingIsNotTight()
    ensures var empty, y := File(0, 0, [], 0), File(0, 5, [], 0);
            Fresh(empty) && Tight(empty) && Cut(empty, y, 5) && Contents(y.blocks) == [] && !Tight(y)
  {
  }

  /** The recorded size of every file is true. */
  predicate AllTight(nodes: Inodes) {
    forall i | 0 <= i < |nodes| :: nodes[i].Some? ==> Tight(nodes[i].value)
  }

  lemma TightCreated(nodes: Inodes, d: nat, name: string, x: Inode)
    requires AllTight(nodes) && IsDir(nodes, d) && Tight(x)
    ensures AllTight(Created(nodes, d, name, x))
  {
  }

  lemma TightDeleted(nodes: Inodes, d: nat, i: nat)
    requires AllTight(nodes) && IsDir(nodes, d) && i < |nodes[d].value.entries| && nodes[d].value.entries[i].inode < |nodes|
    ensures AllTight(Deleted(nodes, d, i))
  {
  }

  lemma TightAt(nodes: Inodes, i: nat)
    requires AllTight(nodes) && Live(nodes, i)
    ensures Tight(nodes[i].value)
  {
  }

  lemma TightRewritten(nodes: Inodes, i: nat, x: Inode)
    requires AllTight(nodes) && IsFile(nodes, i)
    ensures AllTight(nodes[i := Some(x)]) <==> Tight(x)
  {
    assert nodes[i := Some(x)][i] == Some(x);
  }

  // ---- whole runs ----------------------------------------------------------

  datatype FileOp =
    | MountOp(point: string, quota: nat, freePages: nat)
    | CreateOp(d: nat, name: string, directory: bool)
    | DeleteOp(d: nat, name: string)
    | WriteOp(i: nat, buf: seq<Byte>)
    | TruncateOp(i: nat, size: nat)

  /** The operation neither extended a file by truncation nor let one reach 2^32 bytes. */
  predicate Tidy(was: Inodes, now: Inodes, op: FileOp) {
    match op
    case TruncateOp(i, size) => IsFile(was, i) && size < TWO32 ==> size <= |Contents(was[i].value.blocks)|
    case WriteOp(i, _) => IsFile(was, i) && IsFile(now, i) ==> |Contents(now[i].value.blocks)| < TWO32
    case _ => true
  }

  /** Carries out one operation; one that does not apply is skipped. */
  method Apply(s: Store, op: FileOp)
    requires s.Valid()
    modifies s
    ensures s.Valid() && s.tidy == (old(s.tidy) && Tidy(old(s.nodes), s.nodes, op))
  {
    hide Ok, Contents, AllTight, Recharged, Roomy;
    match op
    case MountOp(point, quota, freePages) =>
      if |point| < MAX_NAME && quota < TWO32 { var ok := s.Mount(point, quota, freePages); }
    case CreateOp(d, name, directory) =>
      if IsDir(s.nodes, d) && |name| < MAX_NAME { var r := s.Create(d, name, directory); }
    case DeleteOp(d, name) =>
      if IsDir(s.nodes, d) { var ok := s.Delete(d, name); }
    case WriteOp(i, buf) =>
      if IsFile(s.nodes, i) { var written := s.Write(i, buf); }
    case TruncateOp(i, size) =>
      if Live(s.nodes, i) && size < TWO32 { var ok := s.Truncate(i, size); }
  }

  /** Every run from the empty store: as long as every operation is tidy, every file's recorded size is
      the number of its bytes, in every state on the way. */
  method RunOps(s: Store, ops: seq<FileOp>) returns (ghost trace: seq<Inodes>)
    requires s.Valid() && s.tidy
    modifies s
    ensures s.Valid()
    ensures |trace| == |ops| + 1 && trace[0] == old(s.nodes) && trace[|ops|] == s.nodes
    ensures forall k: nat | k <= |ops| && (forall j: nat | j < k :: Tidy(trace[j], trace[j + 1], ops[j])) :: AllTight(trace[k])
  {
    hide Ok, AllTight, Tidy;
    trace := [s.nodes];
    for k := 0 to |ops|
      invariant s.Valid() && |trace| == k + 1 && trace[0] == old(s.nodes) && trace[k] == s.nodes
      invariant s.tidy == forall j: nat | j < k :: Tidy(trace[j], trace[j + 1], ops[j])
      invariant forall i: nat | i <= k && (forall j: nat | j < i :: Tidy(trace[j], trace[j + 1], ops[j])) :: AllTight(trace[i])
    {
      ghost var before := trace;
      Apply(s, ops[k]);
      trace := trace + [s.nodes];
      assert forall j: nat | j < k :: Tidy(trace[j], trace[j + 1], ops[j]) == Tidy(before[j], before[j + 1], ops[j]);
    }
  }

  lemma SearchFirst(es: seq<Dentry>, i: nat, name: string)
    requires i < |es| && Search(es[..i], name).None? && es[i].name == name
    ensures Search(es, name) == Some(i)
  {
    assert forall j | 0 <= j < i :: es[..i][j] == es[j];
  }

  lemma CountAfter(count: nat, before: nat, after: nat)
    requires count == before % TWO32 && before <= after
    ensures (count + after - before) % TWO32 == after % TWO32
  {
    var q := before / TWO32;
    assert before == TWO32 * q + count;
  }

  lemma SmallCount(blocks: nat, count: nat)
    requires blocks <= count < TWO32
    ensures blocks % TWO32 == blocks
  {
  }

  lemma SbInRange(mounts: seq<Superblock>, nodes: Inodes, up: Links, lost: seq<nat>, i: nat)
    requires Ok(mounts, nodes, up, lost) && Live(nodes, i)
    ensures nodes[i].value.sb < |mounts| == |lost|
  {
  }

  lemma FileOk(mounts: seq<Superblock>, nodes: Inodes, up: Links, lost: seq<nat>, i: nat)
    requires Ok(mounts, nodes, up, lost) && IsFile(nodes, i)
    ensures InodeOk(|mounts|, nodes[i].value) && |lost| == |mounts|
    ensures mounts[nodes[i].value.sb].used < mounts[nodes[i].value.sb].quota + ENTRY_CHARGE
  {
  }

  lemma EntryAt(nodes: Inodes, up: Links, d: nat, i: nat)
    requires Named(nodes, up) && IsDir(nodes, d) && i < |nodes[d].value.entries|
    ensures Entry(nodes, up, d, i)
  {
    assert DirOk(nodes, up, d);
  }
}
