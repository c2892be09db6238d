/** The data of one shadowFS file (file_system/shadowfs/shadowfs.c): a chain of 4KB blocks that
    stands for a byte sequence. */
module FileChain {
  import opened Words

  const BLOCK_SIZE: nat := 4096

  /** sizeof(shadowfs_block_t), what the quota is charged for one block. */
  const BLOCK_CHARGE: nat := 24

  /** One block: a whole page, of which the first `used` bytes belong to the file. */
  datatype Block = Block(data: seq<Byte>, used: nat)

  predicate Sound(b: Block) {
    |b.data| == BLOCK_SIZE && 0 < b.used <= BLOCK_SIZE
  }

  /** Every block holds something, and every block but the last is full. */
  predicate Chain(bs: seq<Block>) {
    && (forall i | 0 <= i < |bs| :: Sound(bs[i]))
    && (forall i | 0 <= i < |bs| - 1 :: bs[i].used == BLOCK_SIZE)
  }

  function Bytes(b: Block): seq<Byte> {
    if b.used <= |b.data| then b.data[..b.used] else b.data
  }

  /** The byte sequence a chain stands for. */
  function Contents(bs: seq<Block>): seq<Byte> {
    if bs == [] then [] else Contents(bs[..|bs| - 1]) + Bytes(bs[|bs| - 1])
  }

  /** The bytes a read of n bytes at position p is to return: never past the end of s. */
  function Slice(s: seq<Byte>, p: nat, n: nat): seq<Byte> {
    if p >= |s| then [] else s[p..Min(p + n, |s|)]
  }

  /** Byte by byte: as many as were asked for, or all there are behind position p. */
  predicate ReadAt(bytes: seq<Byte>, data: seq<Byte>, p: nat, n: nat) {
    && |bytes| <= n && (bytes != [] ==> p + |bytes| <= |data|)
    && (|bytes| < n ==> p + |bytes| >= |data|)
    && forall k | 0 <= k < |bytes| && p + k < |data| :: bytes[k] == data[p + k]
  }

  lemma SliceReads(data: seq<Byte>, p: nat, n: nat)
    ensures ReadAt(Slice(data, p, n), data, p, n)
  {
  }

  function Min(a: int, b: int): int {
    if a < b then a else b
  }

  /** How many blocks n bytes fill. */
  function BlocksFor(n: nat): nat {
    (n + BLOCK_SIZE - 1) / BLOCK_SIZE
  }

  lemma ContentsSnoc(bs: seq<Block>, b: Block)
    ensures Contents(bs + [b]) == Contents(bs) + Bytes(b)
  {
    assert (bs + [b])[..|bs|] == bs;
  }

  lemma ContentsStep(bs: seq<Block>, k: nat)
    requires k < |bs|
    ensures Contents(bs[..k + 1]) == Contents(bs[..k]) + Bytes(bs[k])
    ensures Sound(bs[k]) ==> |Bytes(bs[k])| == bs[k].used
  {
    assert bs[..k + 1] == bs[..k] + [bs[k]];
    ContentsSnoc(bs[..k], bs[k]);
  }

  lemma {:induction false} ContentsPrefix(bs: seq<Block>, k: nat)
    requires k <= |bs|
    ensures Contents(bs[..k]) <= Contents(bs)
    decreases |bs| - k
  {
    if k == |bs| {
      assert bs[..k] == bs;
    } else {
      ContentsStep(bs, k);
      ContentsPrefix(bs, k + 1);
    }
  }

  /** A chain of full blocks holds 4096 bytes for each. */
  lemma {:induction false} FullLength(bs: seq<Block>)
    requires forall i | 0 <= i < |bs| :: Sound(bs[i]) && bs[i].used == BLOCK_SIZE
    ensures |Contents(bs)| == BLOCK_SIZE * |bs|
  {
    if bs != [] { FullLength(bs[..|bs| - 1]); }
  }

  lemma ChainLength(bs: seq<Block>)
    requires Chain(bs)
    ensures bs != [] ==> |Contents(bs)| == BLOCK_SIZE * (|bs| - 1) + bs[|bs| - 1].used
    ensures |bs| == BlocksFor(|Contents(bs)|)
  {
    if bs != [] { FullLength(bs[..|bs| - 1]); }
  }

  /** The clipped read length. It differs from the wanted one only where the file ends anyway. */
  method Clip(size: nat, position: nat, count: nat, ghost bytes: nat) returns (remaining: nat)
    requires bytes <= size < TWO32 && position < TWO32 && count < TWO32
    ensures position < bytes ==> Min(position + remaining, bytes) == Min(position + count, bytes)
  {
    remaining := count;
    if (position + remaining) % TWO32 > size {
      remaining := (size - position) % TWO32;
    }
  }

  /** Reading on into the next piece of a sequence. */
  lemma SliceAppend(s: seq<Byte>, t: seq<Byte>, p: nat, n: nat)
    requires |Slice(s, p, n)| < n
    ensures var got := |Slice(s, p, n)|;
            if p + got < |s| + |t| then
              && |s| <= p + got
              && var at := p + got - |s|;
                 Slice(s + t, p, n) == Slice(s, p, n) + t[at..at + Min(n - got, |t| - at)]
            else Slice(s + t, p, n) == Slice(s, p, n)
  {
    var got := |Slice(s, p, n)|;
    if p + got < |s| + |t| {
      var at := p + got - |s|;
      var more := Min(n - got, |t| - at);
      assert t[at..at + more] == (s + t)[p + got..p + got + more];
    }
  }

  /** A read that has all its bytes is not changed by what follows. */
  lemma SliceComplete(s: seq<Byte>, t: seq<Byte>, p: nat, n: nat)
    requires s <= t && |Slice(s, p, n)| >= n
    ensures Slice(t, p, n) == Slice(s, p, n)
  {
  }

  lemma ReadBlock(s: seq<Byte>, b: Block, p: nat, n: nat)
    requires |Slice(s, p, n)| < n && Sound(b) && |Bytes(b)| == b.used
    ensures var got := |Slice(s, p, n)|;
            if p + got < |s| + b.used then
              && |s| <= p + got
              && var at := p + got - |s|;
                 Slice(s + Bytes(b), p, n) == Slice(s, p, n) + b.data[at..at + Min(n - got, b.used - at)]
            else Slice(s + Bytes(b), p, n) == Slice(s, p, n)
  {
    hide Slice, Bytes;
    SliceAppend(s, Bytes(b), p, n);
    var got := |Slice(s, p, n)|;
    if p + got < |s| + |Bytes(b)| {
      var at := p + got - |s|;
      BytesWithin(b, at, at + Min(n - got, |Bytes(b)| - at));
    }
  }

  lemma BytesWithin(b: Block, i: nat, j: nat)
    requires |b.data| == BLOCK_SIZE && i <= j <= b.used <= BLOCK_SIZE
    ensures |Bytes(b)| == b.used && Bytes(b)[i..j] == b.data[i..j]
  {
  }

  lemma EmptyContents(bs: seq<Block>)
    ensures Contents(bs[..0]) == []
  {
  }

  lemma SliceClipped(s: seq<Byte>, p: nat, n: nat, m: nat)
    requires p < |s| ==> Min(p + n, |s|) == Min(p + m, |s|)
    ensures Slice(s, p, n) == Slice(s, p, m)
    ensures Slice([], p, n) == []
  {
  }

  /** shadowfs_read on a chain, for every 32-bit position and size: the sum position + size may
      wrap around, and size - position may underflow. */
  method ReadChain(blocks: seq<Block>, size: nat, position: nat, count: nat) returns (bytes: seq<Byte>)
    requires forall i | 0 <= i < |blocks| :: Sound(blocks[i])
    requires |Contents(blocks)| <= size < TWO32
    requires position < TWO32 && count < TWO32
    ensures bytes == Slice(Contents(blocks), position, count)
    ensures ReadAt(bytes, Contents(blocks), position, count)
  {
    hide Contents, Slice, Bytes, ReadAt;
    SliceReads(Contents(blocks), position, count);
    var remaining: nat := Clip(size, position, count, |Contents(blocks)|);
    ghost var wanted := remaining;
    SliceClipped(Contents(blocks), position, wanted, count);
    EmptyContents(blocks);
    bytes := [];
    var offset, k, start := position, 0, 0;
    while k < |blocks| && remaining > 0
      invariant k <= |blocks|
      invariant start == |Contents(blocks[..k])|
      invariant bytes == Slice(Contents(blocks[..k]), position, wanted)
      invariant offset == position + |bytes|
      invariant remaining == wanted - |bytes|
      decreases |blocks| - k
    {
      var b := blocks[k];
      ContentsStep(blocks, k);
      ReadBlock(Contents(blocks[..k]), b, position, wanted);
      if offset < start + b.used {
        var blockOffset := offset - start;
        var available := b.used - blockOffset;
        var toRead := if remaining < available then remaining else available;
        bytes := bytes + b.data[blockOffset..blockOffset + toRead];
        offset := offset + toRead;
        remaining := remaining - toRead;
      }
      start := start + b.used;
      k := k + 1;
    }
    if remaining == 0 {
      ContentsPrefix(blocks, k);
      SliceComplete(Contents(blocks[..k]), Contents(blocks), position, wanted);
    } else {
      assert blocks[..k] == blocks;
    }
  }

  /** A page fresh from the frame allocator; nothing is known of its bytes. */
  method NewPage() returns (page: seq<Byte>)
    ensures |page| == BLOCK_SIZE
  {
    page := seq(BLOCK_SIZE, _ => 0);
  }

  predicate AllFull(bs: seq<Block>) {
    forall i | 0 <= i < |bs| :: Sound(bs[i]) && bs[i].used == BLOCK_SIZE
  }

  lemma ExtendChain(full: seq<Block>, b: Block)
    requires AllFull(full) && Sound(b)
    ensures Chain(full + [b])
  {
  }

  lemma ChainFull(bs: seq<Block>)
    requires Chain(bs)
    ensures bs == [] || bs[|bs| - 1].used == BLOCK_SIZE ==> AllFull(bs)
    ensures bs != [] ==> AllFull(bs[..|bs| - 1]) && Sound(bs[|bs| - 1])
  {
  }

  /** One block's worth of a write: into the last block, or into a new one when that is full. */
  method FillBlock(was: seq<Block>, src: seq<Byte>) returns (blocks: seq<Block>, toWrite: nat)
    requires Chain(was) && src != []
    ensures Chain(blocks) && 0 < toWrite <= |src|
    ensures Contents(blocks) == Contents(was) + src[..toWrite]
    ensures |blocks| == if was == [] || was[|was| - 1].used == BLOCK_SIZE then |was| + 1 else |was|
    ensures |blocks| > 0 && (toWrite < |src| ==> blocks[|blocks| - 1].used == BLOCK_SIZE)
  {
    hide Contents, Chain, AllFull, Bytes, Filled;
    ChainFull(was);
    var last, full;
    if was == [] || was[|was| - 1].used == BLOCK_SIZE {
      var page := NewPage();
      full, last := was, Block(page, 0);
      BytesWithin(last, 0, 0);
    } else {
      full, last := was[..|was| - 1], was[|was| - 1];
      assert was == full + [last];
    }
    ContentsSnoc(full, last);
    var space := BLOCK_SIZE - last.used;
    toWrite := if |src| < space then |src| else space;
    var filled := Filled(last, src[..toWrite]);
    blocks := full + [filled];
    ContentsSnoc(full, filled);
    assert Contents(blocks) == (Contents(full) + Bytes(last)) + src[..toWrite];
    ExtendChain(full, filled);
  }

  /** Block b with bytes copied in behind its used part. */
  function Filled(b: Block, bytes: seq<Byte>): (r: Block)
    requires |b.data| == BLOCK_SIZE && b.used + |bytes| <= BLOCK_SIZE
    ensures |r.data| == BLOCK_SIZE && r.used == b.used + |bytes|
    ensures Bytes(r) == Bytes(b) + bytes
  {
    Block(b.data[..b.used] + bytes + b.data[b.used + |bytes|..], b.used + |bytes|)
  }

  /** The loop of shadowfs_write: the quota is consulted before every block's worth of data, so the
      write stops early, and reports it, exactly when the quota runs out before the last block. */
  method AppendChain(was: seq<Block>, charged: nat, quota: nat, buf: seq<Byte>)
    returns (blocks: seq<Block>, used: nat, written: nat)
    requires Chain(was)
    ensures Chain(blocks) && |was| <= |blocks|
    ensures written <= |buf| && Contents(blocks) == Contents(was) + buf[..written]
    ensures used == charged + BLOCK_CHARGE * (|blocks| - |was|)
    ensures used == charged || used < quota + BLOCK_CHARGE
    ensures written == |buf| <==> buf == [] || charged + Overhead(was, |buf|) < quota
    ensures written > 0 ==> charged < quota
    ensures written < |buf| ==> used >= quota && (written > 0 ==> |Contents(blocks)| % 4096 == 0)
  {
    hide Contents, Chain, Overhead;
    blocks, used, written := was, charged, 0;
    while written < |buf|
      invariant Chain(blocks) && |was| <= |blocks|
      invariant written <= |buf| && Contents(blocks) == Contents(was) + buf[..written]
      invariant used == charged + BLOCK_CHARGE * (|blocks| - |was|)
      invariant used == charged || used < quota + BLOCK_CHARGE
      invariant (written == 0 ==> blocks == was && used == charged) && (written > 0 ==> charged < quota)
      invariant 0 < written ==> |blocks| > 0 && charged + BLOCK_CHARGE * Max0(|blocks| - |was| - 1) < quota
      invariant 0 < written < |buf| ==> blocks[|blocks| - 1].used == BLOCK_SIZE
    {
      if used >= quota {
        EarlyStop(was, blocks, buf, written);
        ChainLength(blocks);
        return;
      }
      var filled, n := FillBlock(blocks, buf[written..]);
      assert buf[..written] + buf[written..][..n] == buf[..written + n];
      used := used + BLOCK_CHARGE * (|filled| - |blocks|);
      blocks := filled;
      written := written + n;
    }
    Finished(was, blocks, buf, written);
  }

  function Max0(n: int): nat {
    if n < 0 then 0 else n
  }

  /** What is charged for appending n bytes to a chain before the last block's worth is written. */
  function Overhead(bs: seq<Block>, n: nat): nat {
    BLOCK_CHARGE * Max0(BlocksFor(|Contents(bs)| + n) - |bs| - 1)
  }

  lemma EarlyStop(was: seq<Block>, blocks: seq<Block>, buf: seq<Byte>, written: nat)
    requires Chain(was) && Chain(blocks)
    requires |was| <= |blocks| && written < |buf| && Contents(blocks) == Contents(was) + buf[..written]
    requires written == 0 ==> blocks == was
    requires 0 < written ==> |blocks| > 0 && blocks[|blocks| - 1].used == BLOCK_SIZE
    ensures BLOCK_CHARGE * (|blocks| - |was|) <= Overhead(was, |buf|)
  {
    hide Chain, Contents;
    if written > 0 {
      ChainLength(blocks);
      assert |Contents(blocks)| == |Contents(was)| + written;
      BlocksBeyond(|Contents(was)| + |buf|, |blocks|);
    }
  }

  lemma Finished(was: seq<Block>, blocks: seq<Block>, buf: seq<Byte>, written: nat)
    requires Chain(blocks) && written == |buf|
    requires Contents(blocks) == Contents(was) + buf[..written]
    ensures Overhead(was, |buf|) == BLOCK_CHARGE * Max0(|blocks| - |was| - 1)
  {
    hide Chain, Contents;
    ChainLength(blocks);
    assert |Contents(blocks)| == |Contents(was)| + |buf|;
  }

  lemma BlocksBeyond(n: nat, k: nat)
    requires BLOCK_SIZE * k < n
    ensures k < BlocksFor(n)
  {
  }

  /** Keeping k whole blocks, and `rest` bytes of the next one when rest > 0. */
  function Kept(bs: seq<Block>, k: nat, rest: nat): seq<Block>
    requires k <= |bs| && (rest > 0 ==> k < |bs|)
  {
    if rest == 0 then bs[..k] else bs[..k] + [bs[k].(used := rest)]
  }

  lemma PrefixOfSum(s: seq<Byte>, t: seq<Byte>, all: seq<Byte>, n: nat)
    requires s + t <= all && n <= |t|
    ensures |s| + n <= |all| && s + t[..n] == all[..|s| + n]
  {
  }

  lemma KeptContents(bs: seq<Block>, k: nat, rest: nat)
    requires Chain(bs) && k <= |bs| && (rest > 0 ==> k < |bs| && rest < bs[k].used)
    ensures Chain(Kept(bs, k, rest))
    ensures |Contents(bs[..k])| + rest <= |Contents(bs)|
    ensures Contents(Kept(bs, k, rest)) == Contents(bs)[..|Contents(bs[..k])| + rest]
  {
    hide Chain, Contents, Bytes;
    KeptChain(bs, k, rest);
    ContentsPrefix(bs, k);
    if rest > 0 {
      ContentsStep(bs, k);
      ContentsPrefix(bs, k + 1);
      ContentsSnoc(bs[..k], bs[k].(used := rest));
      PrefixOfSum(Contents(bs[..k]), Bytes(bs[k]), Contents(bs), rest);
    }
  }

  lemma KeptChain(bs: seq<Block>, k: nat, rest: nat)
    requires Chain(bs) && k <= |bs| && (rest > 0 ==> k < |bs| && rest < bs[k].used)
    ensures Chain(Kept(bs, k, rest))
    ensures rest > 0 ==> Bytes(bs[k].(used := rest)) == Bytes(bs[k])[..rest] && rest <= |Bytes(bs[k])|
  {
  }

  /** The walk of shadowfs_truncate to a positive size. */
  method TrimChain(was: seq<Block>, charged: nat, size: nat) returns (blocks: seq<Block>, used: nat)
    requires Chain(was) && BLOCK_CHARGE * |was| <= charged && 0 < size
    ensures Chain(blocks) && |blocks| <= |was|
    ensures Contents(blocks) == if size <= |Contents(was)| then Contents(was)[..size] else Contents(was)
    ensures used == charged - BLOCK_CHARGE * (|was| - |blocks|)
  {
    hide Contents, Bytes, Chain, Kept;
    EmptyContents(was);
    var remaining: nat, k: nat := size, 0;
    ghost var whole: nat, rest: nat := 0, 0;
    used := charged;
    blocks := [];
    KeptLength(was, 0, 0);
    while k < |was|
      invariant k <= |was| && whole <= k
      invariant remaining > 0 ==> whole == k && rest == 0 && remaining + |Contents(was[..k])| == size
      invariant rest > 0 ==> whole < k && rest < was[whole].used
      invariant remaining == 0 ==> |Contents(was[..whole])| + rest == size
      invariant blocks == Kept(was, whole, rest)
      invariant |blocks| <= k && used == charged - BLOCK_CHARGE * (k - |blocks|)
    {
      ContentsStep(was, k);
      SoundAt(was, k);
      if remaining == 0 {
        used := used - BLOCK_CHARGE;
      } else if remaining < was[k].used {
        KeptLength(was, k, remaining);
        blocks := blocks + [was[k].(used := remaining)];
        rest := remaining;
        remaining := 0;
      } else {
        KeptLength(was, k, 0);
        remaining := remaining - was[k].used;
        blocks := blocks + [was[k]];
        whole := k + 1;
      }
      k := k + 1;
    }
    KeptContents(was, whole, rest);
    if remaining > 0 { assert was[..whole] == was; }
  }

  /** shadowfs_truncate on a chain: it keeps exactly the prefix when the new size is at most the old
      one, and is left alone otherwise. Every block taken off returns its charge. */
  method TruncateChain(was: seq<Block>, charged: nat, size: nat) returns (blocks: seq<Block>, used: nat)
    requires Chain(was) && BLOCK_CHARGE * |was| <= charged
    ensures Chain(blocks) && |blocks| <= |was|
    ensures Contents(blocks) == if size <= |Contents(was)| then Contents(was)[..size] else Contents(was)
    ensures used == charged - BLOCK_CHARGE * (|was| - |blocks|)
  {
    if size == 0 {
      blocks, used := [], charged;
      for i := 0 to |was|
        invariant used == charged - BLOCK_CHARGE * i
      {
        used := used - BLOCK_CHARGE;
      }
    } else {
      blocks, used := TrimChain(was, charged, size);
    }
  }

  lemma KeptLength(bs: seq<Block>, k: nat, rest: nat)
    requires k <= |bs| && (rest > 0 ==> k < |bs|)
    ensures |Kept(bs, k, rest)| == if rest > 0 then k + 1 else k
    ensures k == 0 && rest == 0 ==> Kept(bs, k, rest) == []
    ensures rest > 0 ==> Kept(bs, k, rest) == Kept(bs, k, 0) + [bs[k].(used := rest)]
    ensures rest == 0 && k < |bs| ==> Kept(bs, k + 1, 0) == Kept(bs, k, 0) + [bs[k]]
  {
  }

  lemma SoundAt(bs: seq<Block>, k: nat)
    requires Chain(bs) && k < |bs|
    ensures Sound(bs[k])
  {
  }
}
