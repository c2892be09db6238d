/** Open files (file_system/vfs/vfs.c): vfs_open_file, vfs_read and vfs_write. */
module OpenFiles {
  import opened Wrappers
  import opened Words
  import opened FileChain
  import opened Directories
  import opened ShadowFs
  import opened Paths
  import opened Vfs

  /** The open flags: the access mode (0 read, 1 write, 2 both) and the three bits above it. */
  datatype Flags = Flags(access: nat, creat: bool, append: bool, trunc: bool)

  const RDONLY := Flags(0, false, false, false)
  const WRONLY := Flags(1, false, false, false)

  class OpenFile {
    const inode: nat
    const flags: Flags
    var position: nat

    constructor (inode: nat, flags: Flags, position: nat)
      ensures this.inode == inode && this.flags == flags && this.position == position
    {
      this.inode, this.flags, this.position := inode, flags, position;
    }
  }

  datatype Opening = Opened(file: OpenFile) | Failed | Undefined

  /** The data of file i. */
  function Data(nodes: Inodes, i: nat): seq<Byte>
    requires IsFile(nodes, i)
  {
    Contents(nodes[i].value.blocks)
  }

  /** Other files keep their data. */
  predicate OthersKept(was: Inodes, now: Inodes, i: nat) {
    |was| <= |now| && forall j | 0 <= j < |was| && j != i :: IsFile(was, j) ==> now[j] == was[j]
  }

  /** What opening a path leaves behind: the inode it named, or a new one. */
  ghost predicate Opens(mounts: seq<Superblock>, was: Inodes, now: Inodes, path: string, flags: Flags, i: nat)
    requires Rooted(mounts, was)
  {
    && Live(now, i) && OthersKept(was, now, i)
    && (i < |was| ==> Meaning(mounts, was, path) == Found(i) && |now| == |was|)
    && (i < |was| && IsFile(was, i) ==> IsFile(now, i))
    && (i < |was| && !flags.trunc ==> now == was)
    && (i >= |was| ==> flags.creat && i == |was| && IsFile(now, i) && Meaning(mounts, was, path) == Missing)
    && (IsFile(now, i) ==>
          && (i < |was| ==> IsFile(was, i))
          && ((i < |was| ==> Tight(was[i].value)) ==> Tight(now[i].value))
          && Data(now, i) == if flags.trunc || i == |was| then [] else Data(was, i))
  }

  /** Inode i is truncated when the flags say so and it is a file. */
  predicate Attached(was: Inodes, now: Inodes, i: nat, flags: Flags)
    requires Live(was, i)
  {
    && |now| == |was| && now == was[i := now[i]]
    && Live(now, i) && (IsFile(now, i) <==> IsFile(was, i))
    && (!IsFile(now, i) || !flags.trunc ==> now == was)
    && (IsFile(now, i) ==>
          && now[i].value.sb == was[i].value.sb
          && Data(now, i) == (if flags.trunc then [] else Data(was, i))
          && (Tight(was[i].value) ==> Tight(now[i].value)))
  }

  /** The truncation of step 5 and the position of step 7 of vfs_open_file. */
  method Attach(s: Store, i: nat, flags: Flags) returns (file: OpenFile)
    requires s.Valid() && Live(s.nodes, i)
    modifies s
    ensures s.Valid() && fresh(file) && file.inode == i && file.flags == flags
    ensures SameMounts(old(s.mounts), s.mounts) && Attached(old(s.nodes), s.nodes, i, flags)
    ensures forall m | 0 <= m < |s.mounts| :: s.mounts[m].used <= old(s.mounts)[m].used
    ensures IsFile(s.nodes, i) ==> file.position == if flags.append then s.nodes[i].value.size else 0
  {
    hide Ok, AllTight, Contents;
    if flags.trunc {
      ghost var was := s.nodes;
      if IsFile(was, i) { FileOk(s.mounts, s.nodes, s.up, s.lost, i); }
      var ok := s.Truncate(i, 0);
      if ok {
        FileOk(s.mounts, s.nodes, s.up, s.lost, i);
        ChainLength(s.nodes[i].value.blocks);
      }
    }
    var size := if s.nodes[i].value.File? then s.nodes[i].value.size else 0;
    file := new OpenFile(i, flags, if flags.append then size else 0);
  }

  /** An absolute path whose last name fits its buffer. */
  predicate Plain(path: string) {
    Absolute(path) && |path[LastSlash(path) + 1..]| < 64
  }

  /** vfs_open_file. */
  method Open(s: Store, path: string, flags: Flags) returns (r: Opening)
    requires s.Valid() && Fits(s.mounts, path)
    modifies s
    ensures s.Valid() && Rooted(old(s.mounts), old(s.nodes)) && SameMounts(old(s.mounts), s.mounts)
    ensures Cheap(old(s.mounts), s.mounts)
    ensures r.Opened? ==>
              && fresh(r.file) && r.file.flags == flags
              && Opens(old(s.mounts), old(s.nodes), s.nodes, path, flags, r.file.inode)
              && (IsFile(s.nodes, r.file.inode) ==>
                    r.file.position == if flags.append then s.nodes[r.file.inode].value.size else 0)
    ensures r.Opened? && Regular(old(s.mounts), path) && Plain(path) && IsFile(s.nodes, r.file.inode) ==>
              Rooted(s.mounts, s.nodes) && Meaning(s.mounts, s.nodes, path) == Found(r.file.inode)
    ensures !r.Opened? ==> s.nodes == old(s.nodes) && s.mounts == old(s.mounts)
    ensures r.Opened? <==>
              var was := Meaning(old(s.mounts), old(s.nodes), path);
              was.Found? || (was == Missing && flags.creat && Creatable(old(s.mounts), old(s.nodes), path))
  {
    hide Ok, AllTight, Contents, Meaning, Rooted, ShortNames, Regular, Parent, BaseName, LastSlash, NewAt, Creatable, Search, Plain, Opens, Attached;
    ghost var mounts, nodes, up, lost := s.mounts, s.nodes, s.up, s.lost;
    var o := Obtain(s, path, flags.creat);
    if !o.Found? {
      return if o == Confused then Undefined else Failed;
    }
    MeaningLive(mounts, nodes, up, lost, path);
    assert Live(s.nodes, o.inode);
    ghost var mounts1, nodes1, up1, lost1 := s.mounts, s.nodes, s.up, s.lost;
    var file := Attach(s, o.inode, flags);
    r := Opened(file);
    OpensAttached(mounts, nodes, mounts1, nodes1, s.nodes, path, flags, o);
    if Regular(mounts, path) && Plain(path) && IsFile(s.nodes, o.inode) {
      OpensLeads(mounts, nodes, mounts1, nodes1, up1, lost1, s.mounts, s.nodes, path, flags, o);
    }
  }

  /** The inode is the one the path named, or one created for it. */
  ghost predicate Obtained(mounts: seq<Superblock>, nodes: Inodes, mounts1: seq<Superblock>, nodes1: Inodes,
                           path: string, flags: Flags, o: Outcome)
    requires path != ""
  {
    && Rooted(mounts, nodes) && o.Found?
    && if Meaning(mounts, nodes, path) == Missing && flags.creat then Creation(mounts, nodes, mounts1, nodes1, path, false, o)
       else o == Meaning(mounts, nodes, path) && Live(nodes, o.inode) && nodes1 == nodes && mounts1 == mounts
  }

  lemma OpensAttached(mounts: seq<Superblock>, nodes: Inodes, mounts1: seq<Superblock>, nodes1: Inodes, nodes2: Inodes,
                      path: string, flags: Flags, o: Outcome)
    requires path != "" && Obtained(mounts, nodes, mounts1, nodes1, path, flags, o)
    requires Live(nodes1, o.inode) && Attached(nodes1, nodes2, o.inode, flags)
    ensures Opens(mounts, nodes, nodes2, path, flags, o.inode)
  {
    hide Rooted, Meaning, NewAt, Creatable;
  }

  lemma OpensLeads(mounts: seq<Superblock>, nodes: Inodes, mounts1: seq<Superblock>, nodes1: Inodes, up1: Links, lost1: seq<nat>,
                   mounts2: seq<Superblock>, nodes2: Inodes, path: string, flags: Flags, o: Outcome)
    requires Plain(path) && Regular(mounts, path) && Obtained(mounts, nodes, mounts1, nodes1, path, flags, o)
    requires Live(nodes1, o.inode) && Attached(nodes1, nodes2, o.inode, flags) && IsFile(nodes2, o.inode)
    requires Ok(mounts1, nodes1, up1, lost1) && SameMounts(mounts, mounts1) && SameMounts(mounts1, mounts2)
    ensures Rooted(mounts2, nodes2) && Meaning(mounts2, nodes2, path) == o
  {
    hide Rooted, Meaning, Ok, AllTight, Contents, Regular, LastSlash, Creation;
    if Meaning(mounts, nodes, path) == Missing && flags.creat { CreationResolves(mounts, nodes, mounts1, nodes1, path, false, o); }
    OkRooted(mounts1, nodes1, up1, lost1);
    SameMeaning(mounts1, mounts, nodes1, path);
    RewrittenMeaning(mounts, nodes1, up1, o.inode, nodes2[o.inode].value, path);
    assert nodes2 == nodes1[o.inode := Some(nodes2[o.inode].value)];
    SameMeaning(mounts, mounts2, nodes2, path);
  }

  /** The file is there. */
  ghost predicate Ready(s: Store, f: OpenFile)
    reads s, f
  {
    s.Valid() && IsFile(s.nodes, f.inode) && f.position < TWO32
  }

  /** vfs_read: refused only for a file opened for writing and nothing else. The position moves on by
      what was read. */
  method ReadFile(s: Store, f: OpenFile, count: nat) returns (r: Option<seq<Byte>>)
    requires Ready(s, f) && Tight(s.nodes[f.inode].value) && count < TWO32
    modifies f
    ensures Ready(s, f)
    ensures r.None? <==> f.flags == WRONLY
    ensures r.None? ==> f.position == old(f.position)
    ensures r.Some? ==>
              && r.value == Slice(Data(s.nodes, f.inode), old(f.position), count)
              && ReadAt(r.value, Data(s.nodes, f.inode), old(f.position), count)
              && f.position == old(f.position) + |r.value|
  {
    if f.flags == WRONLY { return None; }
    FileOk(s.mounts, s.nodes, s.up, s.lost, f.inode);
    hide Ok, AllTight, Contents;
    var bytes := s.Read(f.inode, f.position, count);
    f.position := f.position + |bytes|;
    r := Some(bytes);
  }

  /** Enough quota to write n more bytes, in however many pieces, to a file whose size is true. */
  predicate Spacious(mounts: seq<Superblock>, x: Inode, n: nat) {
    && x.File? && x.sb < |mounts| && Tight(x)
    && mounts[x.sb].used + BLOCK_CHARGE * (BlocksFor(|Contents(x.blocks)| + n) - |x.blocks|) < mounts[x.sb].quota
    && |Contents(x.blocks)| + n < TWO32
  }

  lemma BlocksForMonotone(n: nat, m: nat)
    requires n <= m
    ensures BlocksFor(n) <= BlocksFor(m)
  {
  }

  /** Room for n bytes is room for the first k of them. */
  lemma SpaciousRoomy(mounts: seq<Superblock>, x: Inode, k: nat, n: nat)
    requires Spacious(mounts, x, n) && k <= n && Chain(x.blocks)
    ensures Roomy(mounts, x, k)
  {
    hide Contents, Chain, BlocksFor;
    BlocksForMonotone(|Contents(x.blocks)| + k, |Contents(x.blocks)| + n);
    BlocksForMonotone(|Contents(x.blocks)|, |Contents(x.blocks)| + n);
    ChainLength(x.blocks);
  }

  /** After k of n bytes are written there is room for the rest. */
  lemma SpaciousAfter(mounts: seq<Superblock>, x: Inode, mounts': seq<Superblock>, y: Inode, buf: seq<Byte>, n: nat)
    requires Spacious(mounts, x, n) && |buf| <= n && y.File?
    requires Appended(x, y, buf, |buf|) && Recharged(mounts, mounts', x, y)
    ensures Spacious(mounts', y, n - |buf|)
  {
    hide Contents, BlocksFor;
    WriteTight(x, y, buf, |buf|);
    assert |Contents(y.blocks)| + (n - |buf|) == |Contents(x.blocks)| + n;
  }

  /** Only the data of file i has changed: every other inode and all of the name tree is as before. */
  predicate OnlyData(mounts: seq<Superblock>, nodes: Inodes, mounts': seq<Superblock>, nodes': Inodes, i: nat) {
    && SameMounts(mounts, mounts')
    && IsFile(nodes, i) && IsFile(nodes', i) && nodes'[i].value.sb == nodes[i].value.sb
    && nodes' == nodes[i := nodes'[i]]
  }

  /** Writing to a file changes the meaning of no path that has one. */
  lemma OnlyDataLeads(mounts: seq<Superblock>, nodes: Inodes, up: Links, lost: seq<nat>,
                      mounts': seq<Superblock>, nodes': Inodes, i: nat, q: string)
    requires Ok(mounts, nodes, up, lost) && OnlyData(mounts, nodes, mounts', nodes', i)
    ensures Rooted(mounts, nodes) && Rooted(mounts', nodes')
    ensures Meaning(mounts, nodes, q).Found? ==> Meaning(mounts', nodes', q) == Meaning(mounts, nodes, q)
  {
    hide Ok, AllTight, Rooted, Meaning, Named;
    OkRooted(mounts, nodes, up, lost);
    RewrittenMeaning(mounts, nodes, up, i, nodes'[i].value, q);
    assert nodes' == nodes[i := Some(nodes'[i].value)];
    SameMeaning(mounts, mounts', nodes', q);
  }

  /** vfs_write: refused only for a file opened for reading and nothing else. */
  method WriteFile(s: Store, f: OpenFile, buf: seq<Byte>, ghost n: nat) returns (r: Option<nat>)
    requires Ready(s, f) && |buf| <= n
    modifies s, f
    ensures Ready(s, f) && OnlyData(old(s.mounts), old(s.nodes), s.mounts, s.nodes, f.inode)
    ensures r.None? <==> f.flags == RDONLY
    ensures r.None? ==> s.nodes == old(s.nodes) && s.mounts == old(s.mounts)
    ensures r.Some? ==> r.value <= |buf| && Data(s.nodes, f.inode) == Data(old(s.nodes), f.inode) + buf[..r.value]
    ensures f.position == if r.None? then old(f.position) else (old(f.position) + r.value) % TWO32
    ensures r.Some? && Spacious(old(s.mounts), old(s.nodes)[f.inode].value, n) ==>
              r.value == |buf| && Spacious(s.mounts, s.nodes[f.inode].value, n - |buf|)
  {
    if f.flags == RDONLY { return None; }
    FileOk(s.mounts, s.nodes, s.up, s.lost, f.inode);
    hide Ok, AllTight, Contents, Spacious, Chain, Recharged, Overhead;
    ghost var mounts, x := s.mounts, s.nodes[f.inode].value;
    var written := s.Write(f.inode, buf);
    f.position := (f.position + written) % TWO32;
    r := Some(written);
    if Spacious(mounts, x, n) {
      SpaciousRoomy(mounts, x, |buf|, n);
      SpaciousAfter(mounts, x, s.mounts, s.nodes[f.inode].value, buf, n);
    }
  }
}
