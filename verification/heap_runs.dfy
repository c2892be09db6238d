/** Consequences for whole runs of kmalloc and kfree (kernel/memory/mem.c). */
module HeapRuns {
  import opened Words
  import opened HeapBlocks
  import opened Heap

  lemma SameAddress(bs: seq<Block>, a: Block, b: Block)
    requires Tiles(bs, HEAP_START) && a in bs && b in bs && a.addr == b.addr
    ensures a == b
  {
    var k: nat :| k < |bs| && bs[k] == a;
    if a != b { NotListed(bs, k, b); }
  }

  /** A served request adds one live block of at least that many bytes. */
  lemma {:induction false} ServedLive(bs: seq<Block>, bs': seq<Block>, size: nat, addr: nat) returns (b: Block)
    requires Served(bs, bs', size, addr) && Tiles(bs, HEAP_START)
    ensures Live(bs') == Live(bs) + {b} && b !in Live(bs) && addr == b.addr + HEADER && size <= b.size
    ensures forall c | c in Live(bs) :: c.addr != b.addr
  {
    var k: nat :| FirstFit(bs, size, k) && bs' == Carve(bs, k, size) && addr == bs[k].addr + HEADER;
    CarveLive(bs, k, size);
    CarvedAt(bs, k, size);
    b := bs'[k];
    forall c | c in Live(bs) ensures c.addr != b.addr {
      if c.addr == b.addr { SameAddress(bs, c, bs[k]); }
    }
  }

  /** The block served holds the requested bytes exactly when the rounding did not wrap: the last
      three request sizes round to 0. */
  lemma {:induction false} EnoughBytes(bs: seq<Block>, bs': seq<Block>, size: nat, addr: nat) returns (b: Block)
    requires 0 < size < TWO64 && Served(bs, bs', Rounded(size), addr) && Tiles(bs, HEAP_START)
    ensures b in bs' && !b.free && addr == b.addr + HEADER
    ensures size <= b.size <==> size <= TWO64 - 4
    ensures size <= TWO64 - 4 ==> b.size < size + 32
  {
    RoundedCovers(size);
    var need := Rounded(size);
    var k: nat :| FirstFit(bs, need, k) && bs' == Carve(bs, k, need) && addr == bs[k].addr + HEADER;
    CarvedAt(bs, k, need);
    b := bs'[k];
    assert need <= b.size <= need + HEADER + 4;
  }

  /** A request that wraps on the fresh heap: it is served with an empty block. */
  lemma WrappedRequest()
    ensures Rounded(TWO64 - 1) == 0
    ensures Served(INITIAL, Carve(INITIAL, 0, 0), Rounded(TWO64 - 1), HEAP_START + HEADER)
    ensures Carve(INITIAL, 0, 0)[0] == Block(HEAP_START, 0, false)
  {
    assert FirstFit(INITIAL, 0, 0);
    CarvedAt(INITIAL, 0, 0);
  }

  /** kmalloc followed by kfree of the result is the identity on the block list. */
  method AllocThenFree(h: KernelHeap, size: nat) returns (r: Outcome)
    requires h.Valid() && size < TWO64
    modifies h
    ensures h.Valid() && h.blocks == old(h.blocks) && h.used == old(h.used)
    ensures forall x: nat | x < HEAP_SIZE && InPayload(Live(h.blocks), x) :: h.mem[x] == old(h.mem)[x]
  {
    hide Live, InPayload, UsedBytes, Gap, Served, Coalesced, Tiles, HeaderIs;
    r := h.Kmalloc(size);
    if r.Pointer? {
      ghost var b := ServedLive(old(h.blocks), h.blocks, Rounded(size), r.addr);
      ghost var mid := h.blocks;
      h.Kfree(r.addr);
      Undone(old(h.blocks), mid, h.blocks, b, r.addr);
      Canonical(old(h.blocks), h.blocks, HEAP_START);
    }
  }

  lemma Undone(bs: seq<Block>, mid: seq<Block>, bs': seq<Block>, b: Block, addr: nat)
    requires Live(mid) == Live(bs) + {b} && b !in Live(bs) && addr == b.addr + HEADER && Tiles(mid, HEAP_START)
    requires exists c :: c in Live(mid) && addr == c.addr + HEADER && Live(bs') == Live(mid) - {c}
    ensures Live(bs') == Live(bs)
  {
    var c :| c in Live(mid) && addr == c.addr + HEADER && Live(bs') == Live(mid) - {c};
    SameAddress(mid, b, c);
  }

  /** The pointers are the data addresses of exactly the live blocks, each once. */
  ghost predicate Lists(ptrs: seq<nat>, owners: seq<Block>, live: set<Block>) {
    && |ptrs| == |owners|
    && (forall i | 0 <= i < |ptrs| :: ptrs[i] == owners[i].addr + HEADER)
    && (forall i, j | 0 <= i < j < |owners| :: owners[i] != owners[j])
    && (forall b :: b in owners <==> b in live)
  }

  /** Freeing every live block, in any order, restores the single initial block. */
  method FreeAll(h: KernelHeap, order: seq<nat>, ghost owners: seq<Block>)
    requires h.Valid() && Lists(order, owners, Live(h.blocks))
    modifies h
    ensures h.Valid() && h.blocks == INITIAL && h.used == 0
  {
    hide InPayload, UsedBytes, Coalesced, Tiles, HeaderIs, Live, Lists;
    var i := 0;
    assert order[0..] == order && owners[0..] == owners;
    ListsLength(order, owners, Live(h.blocks));
    while i < |order|
      invariant 0 <= i <= |order| == |owners| && h.Valid() && Lists(order[i..], owners[i..], Live(h.blocks))
    {
      ghost var was := h.blocks;
      FirstPointer(order[i..], owners[i..], Live(was));
      h.Kfree(order[i]);
      FreedFirst(order[i..], owners[i..], was, h.blocks);
      assert order[i..][1..] == order[i + 1..] && owners[i..][1..] == owners[i + 1..];
      i := i + 1;
    }
    NoneLive(h.blocks, order[i..], owners[i..]);
  }

  lemma ListsLength(ptrs: seq<nat>, owners: seq<Block>, live: set<Block>)
    requires Lists(ptrs, owners, live)
    ensures |ptrs| == |owners|
  {
  }

  lemma FirstPointer(ptrs: seq<nat>, owners: seq<Block>, live: set<Block>)
    requires ptrs != [] && Lists(ptrs, owners, live)
    ensures owners != [] && owners[0] in live && ptrs[0] == owners[0].addr + HEADER
  {
    assert owners[0] in owners;
  }

  lemma {:induction false} FreedFirst(ptrs: seq<nat>, owners: seq<Block>, bs: seq<Block>, bs': seq<Block>)
    requires ptrs != [] && Lists(ptrs, owners, Live(bs)) && Tiles(bs, HEAP_START)
    requires exists b :: b in Live(bs) && ptrs[0] == b.addr + HEADER && Live(bs') == Live(bs) - {b}
    ensures Lists(ptrs[1..], owners[1..], Live(bs'))
  {
    var b :| b in Live(bs) && ptrs[0] == b.addr + HEADER && Live(bs') == Live(bs) - {b};
    FirstPointer(ptrs, owners, Live(bs));
    SameAddress(bs, b, owners[0]);
    hide Live, Tiles;
    assert owners == [b] + owners[1..];
    assert b !in owners[1..];
  }

  lemma {:induction false} NoneLive(bs: seq<Block>, ptrs: seq<nat>, owners: seq<Block>)
    requires Tiles(bs, HEAP_START) && Coalesced(bs) && ptrs == [] && Lists(ptrs, owners, Live(bs))
    ensures bs == INITIAL && UsedBytes(bs) == 0
  {
    assert Meets(INITIAL, 0);
    assert Live(bs) == {} && Live(INITIAL) == {};
    Canonical(bs, INITIAL, HEAP_START);
  }

  /** A store by the owner of a live block, inside its data, keeps the heap and everyone's data. */
  method Poke(h: KernelHeap, ghost b: Block, off: nat, v: Byte, ptr: nat)
    requires h.Valid() && b in Live(h.blocks) && ptr == b.addr + HEADER && off < b.size
    requires ptr + off < HEAP_END
    modifies h`mem
    ensures h.Valid() && h.mem == old(h.mem)[ptr + off - HEAP_START := v]
  {
    hide UsedBytes, Coalesced, Live, Tiles, HeaderIs;
    LiveAbove(h.blocks, b);
    var i := ptr + off - HEAP_START;
    h.mem := h.mem[i := v];
    PokeEncodes(old(h.mem), v, h.blocks, b, i);
  }

  lemma LiveAbove(bs: seq<Block>, b: Block)
    requires Tiles(bs, HEAP_START) && b in Live(bs)
    ensures HEAP_START <= b.addr
  {
    var k: nat :| k < |bs| && bs[k] == b;
    Above(bs, HEAP_START, k);
  }

  lemma {:induction false} PokeEncodes(mem: seq<Byte>, v: Byte, bs: seq<Block>, b: Block, i: nat)
    requires Encodes(mem, bs) && b in Live(bs) && b.addr + HEADER <= HEAP_START + i < b.addr + HEADER + b.size
    requires i < |mem|
    ensures Encodes(mem[i := v], bs)
  {
    var k: nat :| k < |bs| && bs[k] == b;
    forall j: nat | j < |bs| ensures HeaderIs(mem[i := v], bs[j], NextOf(bs, j)) {
      PokedHeader(mem, v, bs, k, j, i);
    }
  }

  lemma {:induction false} PokedHeader(mem: seq<Byte>, v: Byte, bs: seq<Block>, k: nat, j: nat, i: nat)
    requires Tiles(bs, HEAP_START) && k < |bs| && j < |bs| && i < |mem| && HeaderIs(mem, bs[j], NextOf(bs, j))
    requires bs[k].addr + HEADER <= HEAP_START + i < bs[k].addr + HEADER + bs[k].size
    ensures HeaderIs(mem[i := v], bs[j], NextOf(bs, j))
  {
    Above(bs, HEAP_START, j);
    if j < k { Ordered(bs, HEAP_START, j, k); }
    if k < j { Ordered(bs, HEAP_START, k, j); }
    var x, mem' := bs[j].addr - HEAP_START, mem[i := v];
    hide FromBytes, Tiles;
    assert mem'[x..x + 8] == mem[x..x + 8];
    assert mem'[x + 8..x + 16] == mem[x + 8..x + 16];
    assert mem'[x + 16..x + 24] == mem[x + 16..x + 24];
  }
}
