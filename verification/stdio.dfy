/** Buffered file I/O (libc/src/stdio.c): a 512-byte buffer in front of an open file. */
module Stdio {
  import opened Wrappers
  import opened Words
  import opened FileChain
  import opened Directories
  import opened ShadowFs
  import opened Paths
  import opened Vfs
  import opened OpenFiles

  const FILE_BUF_SIZE: nat := 512

  function ModeFlags(mode: char): Option<Flags> {
    if mode == 'r' then Some(Flags(0, false, false, false))
    else if mode == 'w' then Some(Flags(1, true, false, true))
    else if mode == 'a' then Some(Flags(1, true, true, false))
    else None
  }

  function Tail(data: seq<Byte>, p: nat): seq<Byte> {
    if p <= |data| then data[p..] else []
  }

  lemma TailSlice(data: seq<Byte>, p: nat, n: nat)
    ensures Tail(data, p) == Slice(data, p, n) + Tail(data, p + |Slice(data, p, n)|)
    ensures n > 0 && Slice(data, p, n) == [] ==> Tail(data, p) == []
    ensures |Slice(data, p, n)| <= n
  {
  }

  /** Reading is complete when it has all it asked for, or all there is. */
  lemma SliceHead(bytes: seq<Byte>, rest: seq<Byte>, n: nat)
    requires |bytes| == n || (|bytes| < n && rest == [])
    ensures bytes == Slice(bytes + rest, 0, n)
  {
  }

  function Flatten(pieces: seq<seq<Byte>>): seq<Byte> {
    if pieces == [] then [] else Flatten(pieces[..|pieces| - 1]) + pieces[|pieces| - 1]
  }

  /** FILE: in write mode the first `pos` bytes of the buffer wait to be written; in read mode the
      bytes from `pos` to `len` wait to be read. */
  class Stream {
    const s: Store
    const file: OpenFile
    const isWrite: bool
    const buf: array<Byte>
    var pos: nat
    var len: nat

    /** fopen, from the open file on. */
    constructor (s: Store, file: OpenFile, isWrite: bool)
      ensures this.s == s && this.file == file && this.isWrite == isWrite
      ensures fresh(buf) && buf.Length == FILE_BUF_SIZE && pos == 0 && len == 0
    {
      this.s, this.file, this.isWrite := s, file, isWrite;
      buf := new Byte[FILE_BUF_SIZE](_ => 0);
      pos, len := 0, 0;
    }

    ghost predicate Valid()
      reads this, s, file, buf
    {
      && Ready(s, file) && buf.Length == FILE_BUF_SIZE
      && pos <= FILE_BUF_SIZE && len <= FILE_BUF_SIZE
      && (isWrite ==> file.flags != RDONLY)
      && (!isWrite ==> file.flags != WRONLY && pos <= len)
    }

    /** Write mode: the file's data as it will be once the buffer is flushed. */
    ghost function Held(): seq<Byte>
      requires Valid()
      reads this, s, file, buf
    {
      Data(s.nodes, file.inode) + buf[..pos]
    }

    /** Read mode: the bytes still to come. */
    ghost function Rest(): seq<Byte>
      requires Valid() && pos <= len
      reads this, s, file, buf
    {
      buf[pos..len] + Tail(Data(s.nodes, file.inode), file.position)
    }

    /** There is quota for the buffered bytes and n more. */
    ghost predicate Room(n: nat)
      requires Valid()
      reads this, s, file, buf
    {
      Spacious(s.mounts, s.nodes[file.inode].value, pos + n)
    }

    /** memcpy into the buffer. */
    method Fill(src: seq<Byte>)
      requires pos + |src| <= buf.Length
      modifies this`pos, buf
      ensures pos == old(pos) + |src| && buf[..pos] == old(buf[..pos]) + src
    {
      var at := pos;
      for j := 0 to |src|
        invariant pos == at && buf[..at] == old(buf[..pos]) && buf[at..at + j] == src[..j]
      {
        buf[at + j] := src[j];
      }
      pos := at + |src|;
      assert buf[..pos] == buf[..at] + buf[at..at + |src|];
    }

    /** Writing out the buffer, in fwrite and in fclose. A short write counts as a success. */
    method Flush(ghost n: nat) returns (ok: bool)
      requires Valid() && isWrite
      modifies s, file, this`pos
      ensures Valid() && ok && pos == 0
      ensures OnlyData(old(s.mounts), old(s.nodes), s.mounts, s.nodes, file.inode)
      ensures old(Room(n)) ==> Room(n) && Held() == old(Held())
    {
      hide Spacious, Contents, Ok, AllTight;
      var r := WriteFile(s, file, buf[..pos], pos + n);
      ok := r.Some?;
      if ok { pos := 0; }
      assert buf[..0] == [];
    }

    /** One turn of the loop of fwrite. */
    method Put(src: seq<Byte>, ghost more: nat) returns (chunk: nat)
      requires Valid() && isWrite && src != []
      modifies this`pos, buf, s, file
      ensures Valid() && 0 < chunk <= |src|
      ensures OnlyData(old(s.mounts), old(s.nodes), s.mounts, s.nodes, file.inode)
      ensures old(Room(|src| + more)) ==> Room(|src| - chunk + more) && Held() == old(Held()) + src[..chunk]
    {
      hide Spacious, Contents, Ok, AllTight, Data;
      if pos >= FILE_BUF_SIZE {
        var ok := Flush(|src| + more);
      }
      var space := FILE_BUF_SIZE - pos;
      chunk := if space < |src| then space else |src|;
      Fill(src[..chunk]);
    }

    /** fwrite of nmemb items of `size` bytes. It reports every item as accepted, whatever becomes of
        it; with room in the quota, it holds the old data and then src. */
    method Fwrite(src: seq<Byte>, size: nat, nmemb: nat, ghost more: nat) returns (items: nat)
      requires Valid() && |src| == size * nmemb
      modifies this`pos, buf, s, file
      ensures Valid() && items == if !isWrite || size == 0 then 0 else nmemb
      ensures OnlyData(old(s.mounts), old(s.nodes), s.mounts, s.nodes, file.inode)
      ensures isWrite && old(Room(|src| + more)) ==> Room(more) && Held() == old(Held()) + src
    {
      hide Spacious, Contents, Ok, AllTight, Data, Held, Room;
      if !isWrite || size == 0 || nmemb == 0 { assert isWrite ==> src == []; return 0; }
      var written: nat := 0;
      while written < |src|
        invariant written <= |src| && Valid() && isWrite
        invariant OnlyData(old(s.mounts), old(s.nodes), s.mounts, s.nodes, file.inode)
        invariant old(Room(|src| + more)) ==> Room(|src| - written + more) && Held() == old(Held()) + src[..written]
      {
        var chunk := Put(src[written..], more);
        assert src[..written] + src[written..][..chunk] == src[..written + chunk];
        written := written + chunk;
      }
      assert src[..written] == src;
      Whole(size, nmemb);
      items := Quot(written, size);
    }

    /** What a read system call leaves in the buffer. */
    method Load(bytes: seq<Byte>)
      requires |bytes| <= buf.Length
      modifies buf
      ensures buf[..|bytes|] == bytes
    {
      for j := 0 to |bytes|
        invariant buf[..j] == bytes[..j]
      {
        buf[j] := bytes[j];
      }
    }

    /** Handing out at most n buffered bytes. */
    method Take(n: nat) returns (bytes: seq<Byte>)
      requires Valid() && !isWrite && pos < len && 0 < n
      modifies this`pos
      ensures Valid() && 0 < |bytes| <= n && bytes + Rest() == old(Rest())
    {
      hide Contents, Ok, AllTight, Data, Tail;
      var available := len - pos;
      var chunk := if available < n then available else n;
      assert buf[pos..len] == buf[pos..pos + chunk] + buf[pos + chunk..len];
      bytes := buf[pos..pos + chunk];
      pos := pos + chunk;
    }

    /** The refill of fread: false at the end of the file. */
    method Refill() returns (more: bool)
      requires Valid() && !isWrite && Tight(s.nodes[file.inode].value) && pos == len
      modifies this`pos, this`len, buf, file
      ensures Valid() && Rest() == old(Rest())
      ensures more ==> pos < len
      ensures !more ==> Rest() == []
    {
      hide Contents, Ok, AllTight, Slice, Tail, Data;
      ghost var data, at := Data(s.nodes, file.inode), file.position;
      TailSlice(data, at, FILE_BUF_SIZE);
      var r := ReadFile(s, file, FILE_BUF_SIZE);
      var bytes := r.value;
      if bytes == [] {
        assert buf[pos..len] == [];
        return false;
      }
      Load(bytes);
      pos, len := 0, |bytes|;
      more := true;
      assert buf[0..len] == bytes;
    }

    /** The loop of fread. */
    method ReadBytes(total: nat) returns (bytes: seq<Byte>)
      requires Valid() && !isWrite && Tight(s.nodes[file.inode].value)
      modifies this`pos, this`len, buf, file
      ensures Valid() && bytes == Slice(old(Rest()), 0, total) && bytes + Rest() == old(Rest())
    {
      hide Contents, Ok, AllTight, Data, Tail, Slice, Rest, Tight;
      bytes := [];
      while |bytes| < total
        invariant |bytes| <= total && Valid() && pos <= len && bytes + Rest() == old(Rest())
        invariant Tight(s.nodes[file.inode].value)
        decreases total - |bytes|
      {
        if pos >= len {
          var more := Refill();
          if !more { break; }
        }
        var chunk := Take(total - |bytes|);
        bytes := bytes + chunk;
      }
      SliceHead(bytes, Rest(), total);
    }

    /** fread of nmemb items of `size` bytes: the next bytes of the file, fewer only at its end. */
    method Fread(size: nat, nmemb: nat) returns (bytes: seq<Byte>, items: nat)
      requires Valid() && (!isWrite ==> Tight(s.nodes[file.inode].value))
      modifies this`pos, this`len, buf, file
      ensures Valid()
      ensures isWrite ==> bytes == [] && items == 0 && pos == old(pos)
      ensures !isWrite ==> bytes == Slice(old(Rest()), 0, size * nmemb) && bytes + Rest() == old(Rest())
      ensures !isWrite ==> items == if size == 0 then 0 else Quot(|bytes|, size)
    {
      bytes, items := [], 0;
      if isWrite { return; }
      hide Contents, Ok, AllTight, Data, Tail, Slice, Rest, Tight, Quot;
      var total := size * nmemb;
      if size == 0 || nmemb == 0 {
        assert total == 0;
        SliceHead([], Rest(), total);
        QuotZero(size);
        return;
      }
      bytes := ReadBytes(total);
      items := Quot(|bytes|, size);
    }

    /** fclose: the buffer is written out. */
    method Fclose() returns (ok: bool)
      requires Valid()
      modifies this`pos, s, file
      ensures ok && Valid() && OnlyData(old(s.mounts), old(s.nodes), s.mounts, s.nodes, file.inode)
      ensures !isWrite ==> s.nodes == old(s.nodes)
      ensures isWrite && old(Room(0)) ==>
                Data(s.nodes, file.inode) == old(Held()) && Tight(s.nodes[file.inode].value)
    {
      hide Contents, Ok, AllTight, Data;
      ok := true;
      if isWrite && pos > 0 {
        ok := Flush(0);
      }
      assert buf[..0] == [];
    }
  }

  /** Division of sizes: how many whole items of d bytes are in n bytes. */
  function Quot(n: nat, d: nat): (q: nat)
    requires d > 0
    ensures q * d <= n < q * d + d
  {
    if n < d then 0 else 1 + Quot(n - d, d)
  }

  lemma {:induction false} Whole(size: nat, nmemb: nat)
    requires size > 0
    ensures Quot(size * nmemb, size) == nmemb
  {
    if nmemb > 0 {
      assert size * nmemb == size * (nmemb - 1) + size;
      assert size * (nmemb - 1) >= 0;
      Whole(size, nmemb - 1);
    }
  }

  lemma QuotZero(d: nat)
    ensures d > 0 ==> Quot(0, d) == 0
  {
  }

  /** fopen: an unknown mode is refused, a missing file is created for writing only. */
  method Fopen(s: Store, path: string, mode: char) returns (r: Option<Stream>)
    requires s.Valid() && Fits(s.mounts, path)
    modifies s
    ensures s.Valid() && Rooted(old(s.mounts), old(s.nodes)) && SameMounts(old(s.mounts), s.mounts)
    ensures Cheap(old(s.mounts), s.mounts)
    ensures r.Some? ==>
              && ModeFlags(mode).Some? && fresh(r.value) && fresh(r.value.file) && fresh(r.value.buf)
              && r.value.s == s && r.value.isWrite == (mode != 'r')
              && Opens(old(s.mounts), old(s.nodes), s.nodes, path, ModeFlags(mode).value, r.value.file.inode)
    ensures r.Some? <==>
              && (mode == 'r' || mode == 'w' || mode == 'a')
              && var was := Meaning(old(s.mounts), old(s.nodes), path);
                 was.Found? || (was == Missing && mode != 'r' && Creatable(old(s.mounts), old(s.nodes), path))
    ensures r.Some? ==>
              var was := Meaning(old(s.mounts), old(s.nodes), path);
              IsFile(s.nodes, r.value.file.inode) <==> (was.Found? ==> IsFile(old(s.nodes), was.inode))
    ensures r.Some? && IsFile(s.nodes, r.value.file.inode) ==>
              && r.value.Valid() && r.value.pos == r.value.len == 0
              && (mode == 'r' || mode == 'w' ==> r.value.file.position == 0)
              && (mode == 'a' ==> r.value.file.position == s.nodes[r.value.file.inode].value.size)
    ensures r.Some? && mode == 'r' ==> s.nodes == old(s.nodes)
    ensures r.Some? && mode == 'w' && IsFile(s.nodes, r.value.file.inode) ==> Data(s.nodes, r.value.file.inode) == []
    ensures r.Some? && mode == 'a' ==>
              var i, was := r.value.file.inode, Meaning(old(s.mounts), old(s.nodes), path);
              if was.Found? then was == Found(i) && s.nodes == old(s.nodes)
              else i == |old(s.nodes)| && (IsFile(s.nodes, i) ==> Data(s.nodes, i) == [])
    ensures r.Some? && Regular(old(s.mounts), path) && Plain(path) && IsFile(s.nodes, r.value.file.inode) ==>
              Rooted(s.mounts, s.nodes) && Meaning(s.mounts, s.nodes, path) == Found(r.value.file.inode)
  {
    hide Ok, AllTight, Contents, Meaning, ShortNames, Regular, Plain, Opens, Creatable;
    OkRooted(s.mounts, s.nodes, s.up, s.lost);
    hide Rooted;
    if ModeFlags(mode).None? { return None; }
    var o := Open(s, path, ModeFlags(mode).value);
    if !o.Opened? { return None; }
    if IsFile(s.nodes, o.file.inode) { FileOk(s.mounts, s.nodes, s.up, s.lost, o.file.inode); }
    OpensByMode(old(s.mounts), old(s.nodes), s.nodes, path, mode, o.file.inode);
    var f := new Stream(s, o.file, mode != 'r');
    r := Some(f);
  }

  /** What each mode letter does to the file. */
  lemma OpensByMode(mounts: seq<Superblock>, was: Inodes, now: Inodes, path: string, mode: char, i: nat)
    requires Rooted(mounts, was) && ModeFlags(mode).Some? && Opens(mounts, was, now, path, ModeFlags(mode).value, i)
    ensures OthersKept(was, now, i)
    ensures IsFile(now, i) <==> (Meaning(mounts, was, path).Found? ==> IsFile(was, Meaning(mounts, was, path).inode))
    ensures mode == 'r' ==> now == was
    ensures mode == 'w' && IsFile(now, i) ==> Data(now, i) == []
    ensures mode == 'a' ==>
              if Meaning(mounts, was, path).Found? then Meaning(mounts, was, path) == Found(i) && now == was
              else i == |was| && (IsFile(now, i) ==> Data(now, i) == [])
  {
    hide Rooted, Meaning, OthersKept;
  }

  /** Every mount has room for one entry and n bytes more. */
  predicate Ample(mounts: seq<Superblock>, n: nat) {
    forall m | 0 <= m < |mounts| :: mounts[m].used + ENTRY_CHARGE + BLOCK_CHARGE * BlocksFor(n) < mounts[m].quota
  }

  lemma BlocksForSum(a: nat, b: nat)
    ensures BlocksFor(a + b) <= BlocksFor(a) + BlocksFor(b)
  {
  }

  lemma AmpleSpacious(was: seq<Superblock>, mounts: seq<Superblock>, x: Inode, n: nat)
    requires Ample(was, n) && SameMounts(was, mounts) && Cheap(was, mounts)
    requires x.File? && x.sb < |mounts| && Chain(x.blocks) && Tight(x) && |Contents(x.blocks)| + n < TWO32
    ensures Spacious(mounts, x, n)
  {
    ChainLength(x.blocks);
    hide Contents, Chain, BlocksFor;
    BlocksForSum(|Contents(x.blocks)|, n);
  }

  /** There is room for n more bytes in the file fopen has just opened. */
  lemma RoomAfterOpen(was: seq<Superblock>, before: Inodes, mounts: seq<Superblock>, nodes: Inodes,
                      up: Links, lost: seq<nat>, path: string, flags: Flags, i: nat, n: nat)
    requires Rooted(was, before) && AllTight(before) && Opens(was, before, nodes, path, flags, i) && IsFile(nodes, i)
    requires SameMounts(was, mounts) && Cheap(was, mounts) && Ample(was, n) && Ok(mounts, nodes, up, lost)
    requires |Data(nodes, i)| + n < TWO32
    ensures Spacious(mounts, nodes[i].value, n)
  {
    FileOk(mounts, nodes, up, lost, i);
    hide Rooted, Ok, Ample, SameMounts, Cheap, Contents, Chain, Spacious, Meaning, Tight, OthersKept, AllTight;
    if i < |before| { TightAt(before, i); }
    AmpleSpacious(was, mounts, nodes[i].value, n);
  }

  /** fopen in mode 'w' or 'a', any split of the data into fwrite calls, and fclose: the file at the path
      then holds the data alone, or its old contents and the data. None when it cannot be opened or is
      not a file. */
  method Save(s: Store, path: string, mode: char, pieces: seq<seq<Byte>>) returns (inode: Option<nat>)
    requires s.Valid() && s.tidy && Fits(s.mounts, path) && (mode == 'w' || mode == 'a')
    modifies s
    ensures s.Valid() && Rooted(old(s.mounts), old(s.nodes))
    ensures inode.Some? <==>
              var was := Meaning(old(s.mounts), old(s.nodes), path);
              if was.Found? then IsFile(old(s.nodes), was.inode)
              else was == Missing && Creatable(old(s.mounts), old(s.nodes), path)
    ensures inode.Some? ==> IsFile(s.nodes, inode.value) && OthersKept(old(s.nodes), s.nodes, inode.value)
    ensures inode.Some? && Ample(old(s.mounts), |Flatten(pieces)|) && mode == 'w' && |Flatten(pieces)| < TWO32 ==>
              Data(s.nodes, inode.value) == Flatten(pieces)
    ensures inode.Some? && Ample(old(s.mounts), |Flatten(pieces)|) && mode == 'a' ==>
              var was := Meaning(old(s.mounts), old(s.nodes), path);
              if was.Found? then
                && was == Found(inode.value) && IsFile(old(s.nodes), inode.value)
                && (|Data(old(s.nodes), inode.value)| + |Flatten(pieces)| < TWO32 ==>
                      Data(s.nodes, inode.value) == Data(old(s.nodes), inode.value) + Flatten(pieces))
              else |Flatten(pieces)| < TWO32 ==> Data(s.nodes, inode.value) == Flatten(pieces)
    ensures inode.Some? && Regular(old(s.mounts), path) && Plain(path) ==>
              Rooted(s.mounts, s.nodes) && Meaning(s.mounts, s.nodes, path) == Found(inode.value)
  {
    hide Ok, AllTight, Contents, Meaning, Regular, Plain, Creatable, Rooted, SameMounts, Cheap, Ample, Spacious, Flatten, Tight, Fits, Data, Opens;
    ghost var mounts, nodes := s.mounts, s.nodes;
    var r := Fopen(s, path, mode);
    if r.None? || !IsFile(s.nodes, r.value.file.inode) { return None; }
    var f := r.value;
    ghost var mounts1, nodes1, up1, lost1, i := s.mounts, s.nodes, s.up, s.lost, f.file.inode;
    ghost var total := |Flatten(pieces)|;
    if Ample(mounts, total) && |Data(nodes1, i)| + total < TWO32 {
      RoomAfterOpen(mounts, nodes, mounts1, nodes1, up1, lost1, path, ModeFlags(mode).value, i, total);
    }
    assert f.Held() == Data(nodes1, i) + f.buf[..0];
    assert f.Held() == Data(nodes1, i);
    var ok := WriteAll(f, pieces);
    OnlyDataLeads(mounts1, nodes1, up1, lost1, s.mounts, s.nodes, i, path);
    OpensByMode(mounts, nodes, nodes1, path, mode, i);
    inode := Some(f.file.inode);
  }

  /** Any split of the data into fwrite calls, then fclose. */
  method WriteAll(f: Stream, pieces: seq<seq<Byte>>) returns (ok: bool)
    requires f.Valid() && f.isWrite
    modifies f, f.buf, f.s, f.file
    ensures f.Valid() && ok && OnlyData(old(f.s.mounts), old(f.s.nodes), f.s.mounts, f.s.nodes, f.file.inode)
    ensures old(f.Room(|Flatten(pieces)|)) ==>
              Data(f.s.nodes, f.file.inode) == old(f.Held()) + Flatten(pieces) && Tight(f.s.nodes[f.file.inode].value)
  {
    hide Contents, Ok, AllTight, Data, Spacious, Flatten, Tight;
    NothingYet(pieces);
    ghost var total := |Flatten(pieces)|;
    for i := 0 to |pieces|
      invariant f.Valid() && OnlyData(old(f.s.mounts), old(f.s.nodes), f.s.mounts, f.s.nodes, f.file.inode)
      invariant |Flatten(pieces[..i])| <= total
      invariant old(f.Room(total)) ==>
                  f.Room(total - |Flatten(pieces[..i])|) && f.Held() == old(f.Held()) + Flatten(pieces[..i])
    {
      FlattenStep(pieces, i);
      var n := f.Fwrite(pieces[i], 1, |pieces[i]|, total - |Flatten(pieces[..i + 1])|);
    }
    assert pieces[..|pieces|] == pieces;
    ok := f.Fclose();
  }

  lemma NothingYet(pieces: seq<seq<Byte>>)
    ensures Flatten(pieces[..0]) == []
  {
  }

  lemma FlattenStep(pieces: seq<seq<Byte>>, i: nat)
    requires i < |pieces|
    ensures Flatten(pieces[..i + 1]) == Flatten(pieces[..i]) + pieces[i]
    ensures |Flatten(pieces[..i + 1])| <= |Flatten(pieces)|
  {
    assert pieces[..i + 1][..i] == pieces[..i];
    FlattenGrows(pieces, i + 1);
  }

  lemma {:induction false} FlattenGrows(pieces: seq<seq<Byte>>, i: nat)
    requires i <= |pieces|
    ensures |Flatten(pieces[..i])| <= |Flatten(pieces)|
    decreases |pieces| - i
  {
    if i < |pieces| {
      assert pieces[..i + 1][..i] == pieces[..i];
      FlattenGrows(pieces, i + 1);
    } else {
      assert pieces[..i] == pieces;
    }
  }

  function Sum(sizes: seq<nat>): nat {
    if sizes == [] then 0 else Sum(sizes[..|sizes| - 1]) + sizes[|sizes| - 1]
  }

  /** The n-th of a row of reads of the given sizes. */
  function Expected(data: seq<Byte>, sizes: seq<nat>): (r: seq<seq<Byte>>)
    ensures |r| == |sizes|
  {
    if sizes == [] then []
    else Expected(data, sizes[..|sizes| - 1]) + [Slice(data, Sum(sizes[..|sizes| - 1]), sizes[|sizes| - 1])]
  }

  /** Consecutive reads are consecutive pieces of the data, and together a prefix of it. */
  lemma {:induction false} ExpectedPrefix(data: seq<Byte>, sizes: seq<nat>)
    ensures Flatten(Expected(data, sizes)) == Slice(data, 0, Sum(sizes))
  {
    if sizes != [] {
      var n := |sizes| - 1;
      ExpectedPrefix(data, sizes[..n]);
      var e := Expected(data, sizes);
      assert e[..n] == Expected(data, sizes[..n]);
    }
  }

  /** Any split into fread calls. */
  method ReadAll(f: Stream, sizes: seq<nat>) returns (chunks: seq<seq<Byte>>)
    requires f.Valid() && !f.isWrite && Tight(f.s.nodes[f.file.inode].value)
    modifies f, f.buf, f.file
    ensures f.Valid() && chunks == Expected(old(f.Rest()), sizes)
  {
    hide Contents, Ok, AllTight, Data, Tight, Expected;
    chunks := [];
    FirstReads(f.Rest(), sizes);
    for i := 0 to |sizes|
      invariant f.Valid() && Tight(f.s.nodes[f.file.inode].value)
      invariant chunks == Expected(old(f.Rest()), sizes[..i])
      invariant f.Rest() == Tail(old(f.Rest()), Sum(sizes[..i]))
    {
      var bytes, n := f.Fread(1, sizes[i]);
      NextRead(old(f.Rest()), sizes, i, bytes, f.Rest());
      chunks := chunks + [bytes];
    }
    assert sizes[..|sizes|] == sizes;
  }

  lemma FirstReads(data: seq<Byte>, sizes: seq<nat>)
    ensures Expected(data, sizes[..0]) == [] && Tail(data, Sum(sizes[..0])) == data
  {
  }

  lemma NextRead(data: seq<Byte>, sizes: seq<nat>, i: nat, bytes: seq<Byte>, rest: seq<Byte>)
    requires i < |sizes|
    requires var before := Tail(data, Sum(sizes[..i])); bytes == Slice(before, 0, sizes[i]) && bytes + rest == before
    ensures Expected(data, sizes[..i + 1]) == Expected(data, sizes[..i]) + [bytes]
    ensures rest == Tail(data, Sum(sizes[..i + 1]))
  {
    assert sizes[..i + 1][..i] == sizes[..i];
    SliceOfTail(data, Sum(sizes[..i]), sizes[i], rest);
  }

  lemma SliceOfTail(data: seq<Byte>, p: nat, n: nat, rest: seq<Byte>)
    requires Slice(Tail(data, p), 0, n) + rest == Tail(data, p)
    ensures Slice(Tail(data, p), 0, n) == Slice(data, p, n)
    ensures rest == Tail(data, p + n)
  {
    var before := Tail(data, p);
    assert rest == before[|Slice(before, 0, n)|..];
  }

  lemma FitsStill(a: seq<Superblock>, b: seq<Superblock>, path: string)
    requires SameMounts(a, b) && Fits(a, path)
    ensures Fits(b, path)
  {
    hide Owner, Components, LastSlash;
    assert Points(a) == Points(b);
  }

  /** What any split into fwrite calls wrote, any split into fread calls of the reopened file reads. */
  method WriteThenRead(f: Stream, path: string, pieces: seq<seq<Byte>>, sizes: seq<nat>) returns (chunks: seq<seq<Byte>>)
    requires f.Valid() && f.isWrite && f.Room(|Flatten(pieces)|)
    requires Fits(f.s.mounts, path) && Rooted(f.s.mounts, f.s.nodes)
    requires Meaning(f.s.mounts, f.s.nodes, path) == Found(f.file.inode)
    modifies f, f.buf, f.s, f.file
    ensures chunks == Expected(old(f.Held()) + Flatten(pieces), sizes)
  {
    hide Contents, Ok, AllTight, Spacious, Flatten, Tight, Meaning, Rooted, Fits, Expected;
    ghost var mounts, nodes, up, lost := f.s.mounts, f.s.nodes, f.s.up, f.s.lost;
    ghost var data := f.Held() + Flatten(pieces);
    var ok := WriteAll(f, pieces);
    OnlyDataLeads(mounts, nodes, up, lost, f.s.mounts, f.s.nodes, f.file.inode, path);
    FitsStill(mounts, f.s.mounts, path);
    hide SameMounts;
    ghost var written := f.s.nodes;
    var r := Fopen(f.s, path, 'r');
    var g := r.value;
    assert g.buf[0..0] == [];
    assert g.Rest() == data;
    chunks := ReadAll(g, sizes);
  }
}
