/** The kernel heap (kernel/memory/mem.c) over the bytes it manages: block headers live in the same
    memory as the data they describe. */
module Heap {
  import opened Words
  import opened HeapBlocks

  datatype Outcome = Pointer(addr: nat) | ZeroPanic | OutOfMemoryPanic

  /** kmalloc's rounding to a multiple of 4, in 64-bit arithmetic. */
  function Rounded(size: nat): nat {
    if size % 4 != 0 then (size + 4 - size % 4) % TWO64 else size
  }

  /** The rounding covers the request unless it wraps. */
  lemma RoundedCovers(size: nat)
    requires 0 < size < TWO64
    ensures size <= Rounded(size) <==> size <= TWO64 - 4
    ensures size <= TWO64 - 4 ==> Rounded(size) < size + 4
    ensures Rounded(size) % 4 == 0 && Rounded(size) < TWO64
  {
  }

  /** The three words of the header at heap offset i. */
  predicate HeaderIs(mem: seq<Byte>, b: Block, next: nat) {
    var i := b.addr - HEAP_START;
    && 0 <= i && i + HEADER <= |mem|
    && Get64(mem, i) == b.size
    && Get64(mem, i + 8) == (if b.free then 1 else 0)
    && Get64(mem, i + 16) == next
  }

  function NextOf(bs: seq<Block>, k: nat): nat {
    if k + 1 < |bs| then bs[k + 1].addr else 0
  }

  /** Memory holds exactly this block list. */
  ghost predicate Encodes(mem: seq<Byte>, bs: seq<Block>) {
    && |mem| == HEAP_SIZE && Tiles(bs, HEAP_START)
    && forall k: nat | k < |bs| :: HeaderIs(mem, bs[k], NextOf(bs, k))
  }

  /** Heap offset i is a payload byte of one of these blocks. */
  ghost predicate InPayload(live: set<Block>, i: nat) {
    exists b :: b in live && b.addr + HEADER <= HEAP_START + i < b.addr + HEADER + b.size
  }

  /** Only the two headers at heap offsets i and j may differ. */
  ghost predicate OnlyHeaders(mem: seq<Byte>, mem': seq<Byte>, i: nat, j: nat) {
    && |mem| == |mem'|
    && forall x: nat | x < |mem| && !(i <= x < i + HEADER) && !(j <= x < j + HEADER) :: mem'[x] == mem[x]
  }

  lemma WordKept(mem: seq<Byte>, mem': seq<Byte>, i: nat, j: nat, x: nat)
    requires OnlyHeaders(mem, mem', i, j) && x + 8 <= |mem|
    requires (x + 8 <= i || i + HEADER <= x) && (x + 8 <= j || j + HEADER <= x)
    ensures |mem'| == |mem| && Get64(mem', x) == Get64(mem, x)
  {
    hide FromBytes;
    assert mem'[x..x + 8] == mem[x..x + 8];
  }

  lemma {:induction false} HeaderKept(mem: seq<Byte>, mem': seq<Byte>, i: nat, j: nat, b: Block, next: nat)
    requires HeaderIs(mem, b, next) && OnlyHeaders(mem, mem', i, j) && HEAP_START <= b.addr
    requires b.addr + HEADER <= HEAP_START + i || HEAP_START + i + HEADER <= b.addr
    requires b.addr + HEADER <= HEAP_START + j || HEAP_START + j + HEADER <= b.addr
    ensures HeaderIs(mem', b, next)
  {
    hide OnlyHeaders, Get64;
    var k := b.addr - HEAP_START;
    WordKept(mem, mem', i, j, k);
    WordKept(mem, mem', i, j, k + 8);
    WordKept(mem, mem', i, j, k + 16);
  }

  /** Block k of the list was replaced by the blocks `mid`, whose headers lie at offsets i and j;
      every other header survives, with the link into the stretch unchanged. */
  lemma {:induction false} SpliceEncodes(mem: seq<Byte>, mem': seq<Byte>, bs: seq<Block>, k: nat, n: nat,
                                         mid: seq<Block>, i: nat, j: nat)
    requires Encodes(mem, bs) && k < n <= |bs| && mid != [] && mid[0].addr == bs[k].addr
    requires OnlyHeaders(mem, mem', i, j)
    requires bs[k].addr <= HEAP_START + i && HEAP_START + i + HEADER <= AddrOf(bs, n)
    requires bs[k].addr <= HEAP_START + j && HEAP_START + j + HEADER <= AddrOf(bs, n)
    requires var cs := bs[..k] + mid + bs[n..];
             && Tiles(cs, HEAP_START)
             && forall x: nat | k <= x < k + |mid| :: HeaderIs(mem', cs[x], NextOf(cs, x))
    ensures Encodes(mem', bs[..k] + mid + bs[n..])
  {
    hide HeaderIs, Tiles;
    var cs := bs[..k] + mid + bs[n..];
    forall x: nat | x < |cs| ensures HeaderIs(mem', cs[x], NextOf(cs, x)) {
      if x < k {
        Ordered(bs, HEAP_START, x, k);
        Above(bs, HEAP_START, x);
        assert NextOf(cs, x) == NextOf(bs, x);
        HeaderKept(mem, mem', i, j, bs[x], NextOf(bs, x));
      } else if k + |mid| <= x {
        var y := x - |mid| - k + n;
        if n < y { Ordered(bs, HEAP_START, n, y); }
        Above(bs, HEAP_START, y);
        assert cs[x] == bs[y] && NextOf(cs, x) == NextOf(bs, y);
        HeaderKept(mem, mem', i, j, bs[y], NextOf(bs, y));
      }
    }
  }

  const INITIAL: seq<Block> := [Block(HEAP_START, HEAP_SIZE - HEADER, true)]

  lemma {:induction false} Initial(raw: seq<Byte>)
    requires |raw| == HEAP_SIZE
    ensures Encodes(Put64(Put64(Put64(raw, 0, HEAP_SIZE - HEADER), 8, 1), 16, 0), INITIAL)
    ensures Coalesced(INITIAL) && UsedBytes(INITIAL) == 0
  {
    hide Get64, Put64;
    var m1 := Put64(raw, 0, HEAP_SIZE - HEADER);
    var m2 := Put64(m1, 8, 1);
    PutGet(raw, 0, HEAP_SIZE - HEADER);
    PutGet(m1, 8, 1);
    PutGet(m2, 16, 0);
    assert Meets(INITIAL, 0);
    assert HeaderIs(Put64(m2, 16, 0), INITIAL[0], NextOf(INITIAL, 0));
  }

  /** The block a request of `size` bytes is served from. */
  predicate FirstFit(bs: seq<Block>, size: nat, k: nat) {
    && k < |bs| && bs[k].free && size <= bs[k].size
    && forall j: nat | j < k :: !(bs[j].free && size <= bs[j].size)
  }

  /** The headers of the pieces of b are in memory, the second one at offset j. */
  ghost predicate Pieced(mem: seq<Byte>, b: Block, next: nat, size: nat, j: nat)
    requires size <= b.size
  {
    var mid := Pieces(b, size);
    if |mid| == 2 then
      HEAP_START + j == mid[1].addr && HeaderIs(mem, mid[0], mid[1].addr) && HeaderIs(mem, mid[1], next)
    else HEAP_START + j == b.addr && HeaderIs(mem, mid[0], next)
  }

  /** The splitting rule: a block more than 28 bytes larger than the request is cut to it, and what is
      behind becomes one free block; any other is handed out whole. The rest of the list stays. */
  ghost predicate HandedOut(bs: seq<Block>, bs': seq<Block>, need: nat, k: nat)
    requires k < |bs|
  {
    && k < |bs'| && bs'[..k] == bs[..k]
    && bs'[k].addr == bs[k].addr && !bs'[k].free
    && if bs[k].size > need + 28 then
         && bs'[k].size == need
         && |bs'| == |bs| + 1 && bs'[k + 2..] == bs[k + 1..]
         && bs'[k + 1].addr == bs[k].addr + 24 + need && bs'[k + 1].free
         && bs'[k + 1].addr + 24 + bs'[k + 1].size == bs[k].addr + 24 + bs[k].size
       else bs'[k].size == bs[k].size && bs'[k + 1..] == bs[k + 1..]
  }

  lemma FitSize(bs: seq<Block>, need: nat, k: nat)
    requires FirstFit(bs, need, k)
    ensures k < |bs| && bs[k].free && need <= bs[k].size
  {
  }

  /** The first fitting block was handed out by the splitting rule: the address is that of its data, and
      the bytes added to the count are those of the block, at most 28 more than asked for. */
  ghost predicate Allocated(bs: seq<Block>, bs': seq<Block>, need: nat, addr: nat, bytes: int) {
    exists k: nat ::
      && FirstFit(bs, need, k) && HandedOut(bs, bs', need, k)
      && addr == bs'[k].addr + 24 && bytes == bs'[k].size && need <= bs'[k].size <= need + 28
  }

  lemma AllocatedAt(bs: seq<Block>, bs': seq<Block>, need: nat, k: nat)
    requires FirstFit(bs, need, k) && HandedOut(bs, bs', need, k)
    ensures Allocated(bs, bs', need, bs[k].addr + HEADER, bs'[k].size)
  {
  }

  /** The block whose data is at ptr is no longer live, and its bytes have left the count. */
  ghost predicate Freed(live: set<Block>, live': set<Block>, ptr: nat, bytes: int) {
    exists b :: b in live && ptr == b.addr + HEADER && live' == live - {b} && bytes == b.size
  }

  lemma FreedAt(live: set<Block>, b: Block)
    requires b in live
    ensures Freed(live, live - {b}, b.addr + HEADER, b.size)
  {
  }

  lemma CarveHandsOut(bs: seq<Block>, k: nat, need: nat)
    requires k < |bs| && need <= bs[k].size
    ensures HandedOut(bs, Carve(bs, k, need), need, k)
  {
  }

  lemma CarvedAt(bs: seq<Block>, k: nat, size: nat)
    requires k < |bs| && size <= bs[k].size
    ensures |Carve(bs, k, size)| > k && Carve(bs, k, size)[k] == Pieces(bs[k], size)[0]
  {
  }

  lemma {:induction false} CarveEncodes(mem: seq<Byte>, mem': seq<Byte>, bs: seq<Block>, k: nat, size: nat, i: nat, j: nat)
    requires Encodes(mem, bs) && Coalesced(bs) && k < |bs| && bs[k].free && size <= bs[k].size
    requires HEAP_START + i == bs[k].addr && OnlyHeaders(mem, mem', i, j)
    requires Pieced(mem', bs[k], NextOf(bs, k), size, j)
    ensures Encodes(mem', Carve(bs, k, size))
  {
    hide HeaderIs, Tiles, OnlyHeaders, Coalesced;
    CarveTiles(bs, k, size);
    Bounds(bs, k);
    PieceHeaders(mem', bs, k, size, j);
    SpliceEncodes(mem, mem', bs, k, k + 1, Pieces(bs[k], size), i, j);
  }

  lemma {:induction false} PieceHeaders(mem: seq<Byte>, bs: seq<Block>, k: nat, size: nat, j: nat)
    requires k < |bs| && size <= bs[k].size && Pieced(mem, bs[k], NextOf(bs, k), size, j)
    ensures var cs := Carve(bs, k, size);
            forall x: nat | k <= x < k + |Pieces(bs[k], size)| :: HeaderIs(mem, cs[x], NextOf(cs, x))
  {
    hide HeaderIs;
    var cs, mid := Carve(bs, k, size), Pieces(bs[k], size);
    forall x: nat | k <= x < k + |mid| ensures HeaderIs(mem, cs[x], NextOf(cs, x)) {
      assert cs[x] == mid[x - k];
      if x == k + |mid| - 1 { assert NextOf(cs, x) == NextOf(bs, k); }
    }
  }

  lemma {:induction false} PayloadOf(bs: seq<Block>, x: nat) returns (j: nat)
    requires InPayload(Live(bs), x)
    ensures j < |bs| && !bs[j].free && bs[j].addr + HEADER <= HEAP_START + x < bs[j].addr + HEADER + bs[j].size
  {
    var b :| b in Live(bs) && b.addr + HEADER <= HEAP_START + x < b.addr + HEADER + b.size;
    j :| 0 <= j < |bs| && bs[j] == b;
  }

  /** A header, or any byte of a free block, is no live block's payload. */
  lemma {:induction false} OutsidePayload(bs: seq<Block>, k: nat, x: nat)
    requires Tiles(bs, HEAP_START) && k < |bs| && bs[k].addr <= HEAP_START + x
    requires HEAP_START + x < bs[k].addr + HEADER || (bs[k].free && HEAP_START + x < AddrOf(bs, k + 1))
    ensures !InPayload(Live(bs), x)
  {
    if InPayload(Live(bs), x) {
      var j := PayloadOf(bs, x);
      assert Meets(bs, k);
      if j < k { Ordered(bs, HEAP_START, j, k); }
      if k < j { Ordered(bs, HEAP_START, k, j); }
    }
  }

  /** Writing headers inside free blocks leaves every live payload alone. */
  lemma {:induction false} PayloadKept(mem: seq<Byte>, mem': seq<Byte>, bs: seq<Block>, k: nat, i: nat, j: nat)
    requires Tiles(bs, HEAP_START) && k < |bs| && OnlyHeaders(mem, mem', i, j) && HEAP_START + i == bs[k].addr
    requires j == i || (bs[k].free && i <= j && HEAP_START + j + HEADER <= AddrOf(bs, k + 1))
    ensures forall x: nat | x < |mem| && InPayload(Live(bs), x) :: mem'[x] == mem[x]
  {
    forall x: nat | x < |mem| && InPayload(Live(bs), x) ensures mem'[x] == mem[x] {
      if i <= x < i + HEADER || j <= x < j + HEADER { OutsidePayload(bs, k, x); }
    }
  }

  lemma {:induction false} Bounds(bs: seq<Block>, k: nat)
    requires Tiles(bs, HEAP_START) && k < |bs|
    ensures HEAP_START <= bs[k].addr && bs[k].addr + HEADER + bs[k].size == AddrOf(bs, k + 1) <= HEAP_END
    ensures NextOf(bs, k) < TWO64 && (NextOf(bs, k) == 0 <==> k + 1 == |bs|)
  {
    Above(bs, HEAP_START, k);
    assert Meets(bs, k);
    Above(bs, HEAP_START, k + 1);
  }

  lemma FirstAddress(bs: seq<Block>)
    requires Tiles(bs, HEAP_START)
    ensures bs != [] && bs[0].addr == HEAP_START
  {
  }

  /** The list after a request was served first-fit from block k and the address handed out. */
  ghost predicate Served(bs: seq<Block>, bs': seq<Block>, size: nat, addr: nat) {
    exists k: nat :: FirstFit(bs, size, k) && bs' == Carve(bs, k, size) && addr == bs[k].addr + HEADER
  }

  lemma {:induction false} MergeEncodes(mem: seq<Byte>, mem': seq<Byte>, bs: seq<Block>, k: nat, b: Block)
    requires Encodes(mem, bs) && k + 1 < |bs| && bs[k].free && bs[k + 1].free
    requires b == Block(bs[k].addr, bs[k].size + HEADER + bs[k + 1].size, true)
    requires HEAP_START <= b.addr && OnlyHeaders(mem, mem', b.addr - HEAP_START, b.addr - HEAP_START)
    requires HeaderIs(mem', b, NextOf(bs, k + 1))
    ensures Encodes(mem', Merge(bs, k))
  {
    hide HeaderIs, OnlyHeaders, Live, UsedBytes;
    MergeKeeps(bs, k);
    Bounds(bs, k);
    Bounds(bs, k + 1);
    var cs := Merge(bs, k);
    assert cs == bs[..k] + [b] + bs[k + 2..];
    assert NextOf(cs, k) == NextOf(bs, k + 1);
    hide Tiles, Merge;
    SpliceEncodes(mem, mem', bs, k, k + 2, [b], b.addr - HEAP_START, b.addr - HEAP_START);
  }

  /** No two neighbours up to block k are both free. */
  ghost predicate MergedTo(bs: seq<Block>, k: nat) {
    k < |bs| && forall j: nat | j < k :: !(bs[j].free && bs[j + 1].free)
  }

  lemma MergedFirst(bs: seq<Block>)
    requires bs != []
    ensures MergedTo(bs, 0)
  {
  }

  lemma MergedNext(bs: seq<Block>, k: nat)
    requires MergedTo(bs, k) && k + 1 < |bs| && !(bs[k].free && bs[k + 1].free)
    ensures MergedTo(bs, k + 1)
  {
  }

  lemma MergedStill(bs: seq<Block>, k: nat)
    requires MergedTo(bs, k) && k + 1 < |bs| && bs[k].free && bs[k + 1].free
    ensures MergedTo(Merge(bs, k), k)
  {
    assert forall j: nat | j < k :: Merge(bs, k)[j] == bs[j];
  }

  lemma MergedAll(bs: seq<Block>, k: nat)
    requires MergedTo(bs, k) && k + 1 == |bs|
    ensures Coalesced(bs)
  {
  }

  lemma MergedAt(bs: seq<Block>, k: nat)
    requires k + 1 < |bs|
    ensures |Merge(bs, k)| == |bs| - 1 && Merge(bs, k)[k].addr == bs[k].addr
    ensures forall j: nat | j < k :: Merge(bs, k)[j] == bs[j]
    ensures Merge(bs, k)[k].free
  {
  }

  lemma {:induction false} FlagEncodes(mem: seq<Byte>, mem': seq<Byte>, bs: seq<Block>, k: nat)
    requires Encodes(mem, bs) && k < |bs| && HEAP_START <= bs[k].addr
    requires OnlyHeaders(mem, mem', bs[k].addr - HEAP_START, bs[k].addr - HEAP_START)
    requires var b := bs[k].(free := true);
             HeaderIs(mem', b, NextOf(bs, k)) && Tiles(bs[k := b], HEAP_START)
    ensures Encodes(mem', bs[k := bs[k].(free := true)])
  {
    hide HeaderIs, OnlyHeaders;
    Bounds(bs, k);
    var b := bs[k].(free := true);
    var cs := bs[k := b];
    assert cs == bs[..k] + [b] + bs[k + 1..];
    assert NextOf(cs, k) == NextOf(bs, k);
    hide Tiles;
    SpliceEncodes(mem, mem', bs, k, k + 1, [b], b.addr - HEAP_START, b.addr - HEAP_START);
  }

  lemma Shrink(bs: seq<Block>, bs': seq<Block>)
    requires Live(bs') <= Live(bs)
    ensures forall x: nat | InPayload(Live(bs'), x) :: InPayload(Live(bs), x)
  {
  }

  lemma Lookup(bs: seq<Block>, ptr: nat) returns (k: nat)
    requires exists b :: b in Live(bs) && ptr == b.addr + HEADER
    ensures k < |bs| && !bs[k].free && ptr == bs[k].addr + HEADER && bs[k] in Live(bs)
  {
    var b :| b in Live(bs) && ptr == b.addr + HEADER;
    k :| 0 <= k < |bs| && bs[k] == b;
  }

  class KernelHeap {
    var mem: seq<Byte>
    var used: nat
    ghost var blocks: seq<Block>

    ghost predicate Valid()
      reads this
    {
      Encodes(mem, blocks) && Coalesced(blocks) && used == UsedBytes(blocks)
    }

    /** mem_init over memory of any contents. */
    constructor (raw: seq<Byte>)
      requires |raw| == HEAP_SIZE
      ensures Valid() && blocks == INITIAL && used == 0
    {
      mem := Put64(Put64(Put64(raw, 0, HEAP_SIZE - HEADER), 8, 1), 16, 0);
      used := 0;
      blocks := INITIAL;
      new;
      Initial(raw);
    }

    /** The split of kmalloc: a free header after the first `size` bytes of the block, then the
        shrunk block's own size and link. */
    method Split(ghost b: Block, ghost next: nat, size: nat, current: nat)
      requires |mem| == HEAP_SIZE && HeaderIs(mem, b, next) && current == b.addr && b.free && next < TWO64
      requires b.size > size + HEADER + 4 && b.addr + HEADER + b.size <= HEAP_END
      modifies this`mem
      ensures HeaderIs(mem, Block(b.addr, size, true), b.addr + HEADER + size)
      ensures HeaderIs(mem, Block(b.addr + HEADER + size, b.size - size - HEADER, true), next)
      ensures OnlyHeaders(old(mem), mem, b.addr - HEAP_START, b.addr - HEAP_START + HEADER + size)
    {
      hide Get64, Put64;
      var i := current - HEAP_START;
      var n := i + HEADER + size;
      var whole, link := Get64(mem, i), Get64(mem, i + 16);
      PutGet(mem, n, whole - size - HEADER);
      mem := Put64(mem, n, whole - size - HEADER);
      PutGet(mem, n + 8, 1);
      mem := Put64(mem, n + 8, 1);
      PutGet(mem, n + 16, link);
      mem := Put64(mem, n + 16, link);
      PutGet(mem, i, size);
      mem := Put64(mem, i, size);
      PutGet(mem, i + 16, HEAP_START + n);
      mem := Put64(mem, i + 16, HEAP_START + n);
    }

    /** The header writes for the found block: split if the rest is worth a header, mark it in use. */
    method TakeBytes(ghost b: Block, ghost next: nat, size: nat, current: nat) returns (ghost j: nat)
      requires |mem| == HEAP_SIZE && HeaderIs(mem, b, next) && current == b.addr && b.free && next < TWO64
      requires size <= b.size && b.addr + HEADER + b.size <= HEAP_END
      modifies this`mem
      ensures Pieced(mem, b, next, size, j)
      ensures OnlyHeaders(old(mem), mem, b.addr - HEAP_START, j)
    {
      hide Get64, Put64;
      var i := current - HEAP_START;
      j := i;
      if Get64(mem, i) > size + HEADER + 4 {
        Split(b, next, size, current);
        j := i + HEADER + size;
      }
      PutGet(mem, i + 8, 0);
      mem := Put64(mem, i + 8, 0);
    }

    /** The found block is carved, and its size is added to the count. */
    method Take(ghost k: nat, current: nat, size: nat)
      requires Valid() && k < |blocks| && current == blocks[k].addr && blocks[k].free && size <= blocks[k].size
      modifies this
      ensures Valid() && blocks == Carve(old(blocks), k, size)
      ensures HandedOut(old(blocks), blocks, size, k) && used == old(used) + blocks[k].size
      ensures forall x: nat | x < HEAP_SIZE && InPayload(Live(old(blocks)), x) :: mem[x] == old(mem)[x]
    {
      hide Get64, Put64, UsedBytes, Live, InPayload, OnlyHeaders, Carve, Tiles, Coalesced;
      assert HeaderIs(mem, blocks[k], NextOf(blocks, k));
      Bounds(blocks, k);
      CarveTiles(blocks, k, size);
      CarveLive(blocks, k, size);
      CarvedAt(blocks, k, size);
      CarveHandsOut(blocks, k, size);
      ghost var j := TakeBytes(blocks[k], NextOf(blocks, k), size, current);
      CarveEncodes(old(mem), mem, blocks, k, size, current - HEAP_START, j);
      PayloadKept(old(mem), mem, blocks, k, current - HEAP_START, j);
      used := used + Get64(mem, current - HEAP_START);
      blocks := Carve(blocks, k, size);
    }

    /** The walk of kmalloc: the first free block of at least `need` bytes, 0 at the end of the list. */
    method Search(need: nat) returns (current: nat, ghost k: nat)
      requires Encodes(mem, blocks)
      ensures if current == 0 then forall j: nat | j < |blocks| :: !(blocks[j].free && need <= blocks[j].size)
              else FirstFit(blocks, need, k) && current == blocks[k].addr
      ensures current == 0 || exists j: nat :: FirstFit(blocks, need, j) && current == blocks[j].addr
    {
      hide Get64, Tiles;
      current, k := HEAP_START, 0;
      FirstAddress(blocks);
      while current != 0
        invariant k <= |blocks| && current == (if k < |blocks| then blocks[k].addr else 0)
        invariant forall j: nat | j < k :: !(blocks[j].free && need <= blocks[j].size)
        decreases |blocks| - k
      {
        Bounds(blocks, k);
        assert HeaderIs(mem, blocks[k], NextOf(blocks, k));
        var i := current - HEAP_START;
        if Get64(mem, i + 8) != 0 && Get64(mem, i) >= need { return; }
        current := Get64(mem, i + 16);
        k := k + 1;
      }
    }

    /** kmalloc, with its two panics as outcomes. */
    method Kmalloc(size: nat) returns (r: Outcome)
      requires Valid() && size < TWO64
      modifies this
      ensures Valid()
      ensures r.ZeroPanic? <==> size == 0
      ensures r.OutOfMemoryPanic? <==> size != 0 && !exists a: nat :: Gap(Live(old(blocks)), a, Rounded(size))
      ensures !r.Pointer? ==> mem == old(mem) && blocks == old(blocks) && used == old(used)
      ensures r.Pointer? ==> Served(old(blocks), blocks, Rounded(size), r.addr)
      ensures r.Pointer? ==> Allocated(old(blocks), blocks, Rounded(size), r.addr, used - old(used))
      ensures forall x: nat | x < HEAP_SIZE && InPayload(Live(old(blocks)), x) :: mem[x] == old(mem)[x]
    {
      if size == 0 { return ZeroPanic; }
      hide Get64, Gap, Carve, UsedBytes, Live, InPayload, Tiles, Rounded, HeaderIs, HandedOut, Coalesced, FirstFit, Allocated;
      var need := Rounded(size);
      FitsIffGap(blocks, need);
      var current, k := Search(need);
      if current == 0 { return OutOfMemoryPanic; }
      FitSize(blocks, need, k);
      Take(k, current, need);
      AllocatedAt(old(blocks), blocks, need, k);
      return Pointer(current + HEADER);
    }

    /** One merge of kfree's loop: the block absorbs its free successor. */
    method Absorb(ghost k: nat, current: nat)
      requires Encodes(mem, blocks) && k + 1 < |blocks| && current == blocks[k].addr
      requires blocks[k].free && blocks[k + 1].free
      modifies this`mem, this`blocks
      ensures Encodes(mem, blocks) && blocks == Merge(old(blocks), k)
      ensures OnlyHeaders(old(mem), mem, current - HEAP_START, current - HEAP_START)
    {
      hide Get64, Put64, Tiles, UsedBytes, Live, Merge;
      Bounds(blocks, k);
      Bounds(blocks, k + 1);
      assert HeaderIs(mem, blocks[k], NextOf(blocks, k)) && HeaderIs(mem, blocks[k + 1], NextOf(blocks, k + 1));
      var i := current - HEAP_START;
      var j := Get64(mem, i + 16) - HEAP_START;
      var size, link := Get64(mem, i) + HEADER + Get64(mem, j), Get64(mem, j + 16);
      PutGet(mem, i, size);
      mem := Put64(mem, i, size);
      PutGet(mem, i + 16, link);
      mem := Put64(mem, i + 16, link);
      ghost var b := Block(current, size, true);
      MergeKeeps(blocks, k);
      MergeEncodes(old(mem), mem, blocks, k, b);
      blocks := Merge(blocks, k);
    }

    /** kfree's loop: merges every two neighbouring free blocks, from the start of the list. */
    method Coalesce()
      requires Encodes(mem, blocks) && used == UsedBytes(blocks)
      modifies this`mem, this`blocks
      ensures Valid() && Live(blocks) == Live(old(blocks))
      ensures forall x: nat | x < HEAP_SIZE && InPayload(Live(blocks), x) :: mem[x] == old(mem)[x]
    {
      hide Get64, Tiles, UsedBytes, Live, InPayload, Merge, OnlyHeaders, MergedTo, Coalesced;
      FirstAddress(blocks);
      MergedFirst(blocks);
      var current := HEAP_START;
      ghost var k := 0;
      assert HeaderIs(mem, blocks[0], NextOf(blocks, 0));
      while current != 0 && Get64(mem, current - HEAP_START + 16) != 0
        invariant Encodes(mem, blocks) && used == UsedBytes(blocks) && Live(blocks) == Live(old(blocks))
        invariant k < |blocks| && current == blocks[k].addr && HeaderIs(mem, blocks[k], NextOf(blocks, k))
        invariant MergedTo(blocks, k)
        invariant forall x: nat | x < HEAP_SIZE && InPayload(Live(blocks), x) :: mem[x] == old(mem)[x]
        decreases |blocks| - k
      {
        Bounds(blocks, k);
        assert HeaderIs(mem, blocks[k + 1], NextOf(blocks, k + 1));
        Bounds(blocks, k + 1);
        var next := Get64(mem, current - HEAP_START + 16);
        if Get64(mem, current - HEAP_START + 8) != 0 && Get64(mem, next - HEAP_START + 8) != 0 {
          ghost var was, bs := mem, blocks;
          Absorb(k, current);
          MergeKeeps(bs, k);
          MergedAt(bs, k);
          MergedStill(bs, k);
          PayloadKept(was, mem, bs, k, current - HEAP_START, current - HEAP_START);
          assert HeaderIs(mem, blocks[k], NextOf(blocks, k));
        } else {
          MergedNext(blocks, k);
          current := next;
          k := k + 1;
        }
      }
      Bounds(blocks, k);
      MergedAll(blocks, k);
    }

    /** The first half of kfree: the block is marked free and leaves the count. */
    method Unmark(ghost k: nat, ptr: nat)
      requires Valid() && k < |blocks| && !blocks[k].free && ptr == blocks[k].addr + HEADER
      modifies this
      ensures Encodes(mem, blocks) && used == UsedBytes(blocks) && used == old(used) - old(blocks)[k].size
      ensures Live(blocks) == Live(old(blocks)) - {old(blocks)[k]}
      ensures forall x: nat | x < HEAP_SIZE && InPayload(Live(old(blocks)), x) :: mem[x] == old(mem)[x]
    {
      hide Get64, Put64, Tiles, UsedBytes, InPayload, Coalesced, Live;
      assert HeaderIs(mem, blocks[k], NextOf(blocks, k));
      Bounds(blocks, k);
      FreeBlock(blocks, k);
      var i := ptr - HEADER - HEAP_START;
      PutGet(mem, i + 8, 1);
      mem := Put64(mem, i + 8, 1);
      used := used - Get64(mem, i);
      FlagEncodes(old(mem), mem, blocks, k);
      PayloadKept(old(mem), mem, blocks, k, i, i);
      blocks := blocks[k := blocks[k].(free := true)];
    }

    /** kfree of the block at list index k. */
    method Release(ghost k: nat, ptr: nat)
      requires Valid() && k < |blocks| && !blocks[k].free && blocks[k] in Live(blocks) && ptr == blocks[k].addr + HEADER
      modifies this
      ensures Valid()
      ensures Live(blocks) == Live(old(blocks)) - {old(blocks)[k]} && used == old(used) - old(blocks)[k].size
      ensures forall x: nat | x < HEAP_SIZE && InPayload(Live(blocks), x) :: mem[x] == old(mem)[x]
    {
      hide Encodes, UsedBytes, InPayload, Coalesced, Live;
      Unmark(k, ptr);
      Shrink(old(blocks), blocks);
      Coalesce();
    }

    /** kfree of NULL, or of the data address of a live block. */
    method Kfree(ptr: nat)
      requires Valid() && (ptr == 0 || exists b :: b in Live(blocks) && ptr == b.addr + HEADER)
      modifies this
      ensures Valid()
      ensures ptr == 0 ==> mem == old(mem) && blocks == old(blocks) && used == old(used)
      ensures ptr != 0 ==> Freed(Live(old(blocks)), Live(blocks), ptr, old(used) - used)
      ensures forall x: nat | x < HEAP_SIZE && InPayload(Live(blocks), x) :: mem[x] == old(mem)[x]
    {
      hide Encodes, UsedBytes, InPayload, Coalesced, Live, Freed;
      if ptr == 0 { return; }
      ghost var k := Lookup(blocks, ptr);
      FreedAt(Live(blocks), blocks[k]);
      Release(k, ptr);
    }
  }
}
