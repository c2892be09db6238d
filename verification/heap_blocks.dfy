/** The kernel heap's block list (kernel/memory/mem.c) as a value: blocks that tile the heap, the
    first-fit carve and the merge of neighbours. */
module HeapBlocks {

  const HEAP_START: nat := 0xFFFF_8000_0220_0000
  const HEAP_SIZE: nat := 0x100_0000
  const HEAP_END: nat := HEAP_START + HEAP_SIZE
  const HEADER: nat := 24

  datatype Block = Block(addr: nat, size: nat, free: bool)

  /** Address of block k, or the end of the heap. */
  function AddrOf(bs: seq<Block>, k: nat): nat {
    if k < |bs| then bs[k].addr else HEAP_END
  }

  /** Block k ends where the next one begins. */
  predicate Meets(bs: seq<Block>, k: nat)
    requires k < |bs|
  {
    bs[k].addr + HEADER + bs[k].size == AddrOf(bs, k + 1)
  }

  /** Header-plus-data blocks cover [start, HEAP_END) without gap or overlap. */
  ghost predicate Tiles(bs: seq<Block>, start: nat) {
    && AddrOf(bs, 0) == start
    && forall k: nat | k < |bs| :: Meets(bs, k)
  }

  /** No two neighbours are both free. */
  ghost predicate Coalesced(bs: seq<Block>) {
    forall k: nat | k + 1 < |bs| :: !(bs[k].free && bs[k + 1].free)
  }

  ghost function Live(bs: seq<Block>): set<Block> {
    set b | b in bs && !b.free
  }

  /** Bytes handed out: the sum of live block sizes. */
  function UsedBytes(bs: seq<Block>): nat {
    if bs == [] then 0 else (if bs[0].free then 0 else bs[0].size) + UsedBytes(bs[1..])
  }

  lemma {:induction false} UsedConcat(a: seq<Block>, b: seq<Block>)
    ensures UsedBytes(a + b) == UsedBytes(a) + UsedBytes(b)
  {
    if a == [] {
      assert a + b == b;
    } else {
      UsedConcat(a[1..], b);
      assert (a + b)[1..] == a[1..] + b;
    }
  }

  /** Blocks lie in address order. */
  lemma {:induction false} Ordered(bs: seq<Block>, start: nat, j: nat, k: nat)
    requires Tiles(bs, start) && j < k <= |bs|
    ensures bs[j].addr + HEADER + bs[j].size <= AddrOf(bs, k)
    decreases k - j
  {
    assert Meets(bs, j);
    if j + 1 < k { Ordered(bs, start, j + 1, k); }
  }

  lemma {:induction false} Above(bs: seq<Block>, start: nat, k: nat)
    requires Tiles(bs, start) && k <= |bs|
    ensures start <= AddrOf(bs, k) <= HEAP_END
  {
    if 0 < k { Ordered(bs, start, 0, k); }
    if k < |bs| { Ordered(bs, start, k, |bs|); }
  }

  lemma {:induction false} TailTiles(bs: seq<Block>, start: nat)
    requires Tiles(bs, start) && bs != []
    ensures Tiles(bs[1..], AddrOf(bs, 1))
  {
    forall k: nat | k < |bs[1..]| ensures Meets(bs[1..], k) {
      assert Meets(bs, k + 1);
    }
  }

  /** The block list is a function of the live blocks. */
  lemma {:induction false} Canonical(a: seq<Block>, b: seq<Block>, start: nat)
    requires Tiles(a, start) && Tiles(b, start) && Coalesced(a) && Coalesced(b) && Live(a) == Live(b)
    ensures a == b
  {
    if a == [] || b == [] {
      Above(a, start, 0);
      if a != [] { Ordered(a, start, 0, |a|); }
      if b != [] { Ordered(b, start, 0, |b|); }
    } else {
      SameHead(a, b, start);
      assert Meets(a, 0) && Meets(b, 0);
      TailTiles(a, start);
      TailTiles(b, start);
      TailLive(a, start);
      TailLive(b, start);
      Canonical(a[1..], b[1..], AddrOf(a, 1));
      assert a == [a[0]] + a[1..] && b == [b[0]] + b[1..];
    }
  }

  lemma {:induction false} TailLive(a: seq<Block>, start: nat)
    requires a != [] && Tiles(a, start)
    ensures Live(a[1..]) == Live(a) - {a[0]}
  {
    forall x | x in a[1..] ensures x != a[0] {
      var j :| 0 <= j < |a[1..]| && a[1..][j] == x;
      Ordered(a, start, 0, j + 1);
    }
    assert forall x :: x in a <==> x == a[0] || x in a[1..];
  }

  lemma {:induction false} SameHead(a: seq<Block>, b: seq<Block>, start: nat)
    requires a != [] && b != [] && Tiles(a, start) && Tiles(b, start)
    requires Coalesced(a) && Coalesced(b) && Live(a) == Live(b)
    ensures a[0] == b[0]
  {
    if !a[0].free {
      LiveHead(a, b, start);
    } else if !b[0].free {
      LiveHead(b, a, start);
    } else {
      assert Meets(a, 0) && Meets(b, 0);
      if |a| > 1 { SecondNotAbove(a, b, start); }
      if |b| > 1 { SecondNotAbove(b, a, start); }
      if |a| == 1 { Above(b, start, 1); }
      if |b| == 1 { Above(a, start, 1); }
    }
  }

  lemma {:induction false} LiveHead(a: seq<Block>, b: seq<Block>, start: nat)
    requires a != [] && b != [] && Tiles(a, start) && Tiles(b, start) && Live(a) == Live(b) && !a[0].free
    ensures b[0] == a[0]
  {
    assert a[0] in Live(b);
    var j :| 0 <= j < |b| && b[j] == a[0];
    if j > 0 { Ordered(b, start, 0, j); }
  }

  lemma {:induction false} SecondNotAbove(a: seq<Block>, b: seq<Block>, start: nat)
    requires |a| > 1 && b != [] && Tiles(a, start) && Tiles(b, start) && Coalesced(a)
    requires Live(a) == Live(b) && a[0].free && b[0].free
    ensures AddrOf(b, 1) <= a[1].addr
  {
    assert !a[1].free && a[1] in Live(b);
    var j :| 0 <= j < |b| && b[j] == a[1];
    if j > 1 { Ordered(b, start, 1, j); }
  }

  // ---------- Carving and merging ----------

  /** What a block becomes when `size` bytes of it are handed out: the live block and, if what is
      left is worth a header, a free block after it. */
  function Pieces(b: Block, size: nat): (m: seq<Block>)
    requires size <= b.size
  {
    if b.size > size + HEADER + 4 then
      [Block(b.addr, size, false), Block(b.addr + HEADER + size, b.size - size - HEADER, true)]
    else [b.(free := false)]
  }

  /** Block k becomes live. */
  function Carve(bs: seq<Block>, k: nat, size: nat): seq<Block>
    requires k < |bs| && size <= bs[k].size
  {
    bs[..k] + Pieces(bs[k], size) + bs[k + 1..]
  }

  lemma {:induction false} CarveTiles(bs: seq<Block>, k: nat, size: nat)
    requires k < |bs| && bs[k].free && size <= bs[k].size && Tiles(bs, HEAP_START) && Coalesced(bs)
    ensures Tiles(Carve(bs, k, size), HEAP_START) && Coalesced(Carve(bs, k, size))
  {
    var cs := Carve(bs, k, size);
    var d := if |cs| == |bs| then 0 else 1;
    forall j: nat | j < |cs| ensures Meets(cs, j) {
      if j <= k { assert Meets(bs, j); } else { assert Meets(bs, j - d); }
    }
    forall j: nat | j + 1 < |cs| ensures !(cs[j].free && cs[j + 1].free) {
      if d == 0 || j < k {
        assert !(bs[j].free && bs[j + 1].free);
      } else if k < j {
        assert !(bs[j - 1].free && bs[j].free);
      }
    }
  }

  lemma {:induction false} CarveLive(bs: seq<Block>, k: nat, size: nat)
    requires k < |bs| && bs[k].free && size <= bs[k].size && Tiles(bs, HEAP_START)
    ensures var b := Carve(bs, k, size)[k];
            Live(Carve(bs, k, size)) == Live(bs) + {b} && !b.free && b !in Live(bs) && b.addr == bs[k].addr
    ensures UsedBytes(Carve(bs, k, size)) == UsedBytes(bs) + Carve(bs, k, size)[k].size
  {
    var cs, b, mid := Carve(bs, k, size), Carve(bs, k, size)[k], Pieces(bs[k], size);
    assert bs == bs[..k] + [bs[k]] + bs[k + 1..];
    assert b == mid[0];
    Spliced(bs[..k], [bs[k]], bs[k + 1..], mid);
    assert UsedBytes([b]) == b.size && UsedBytes([bs[k]]) == 0;
    if |mid| == 2 {
      assert mid == [b] + [mid[1]];
      UsedConcat([b], [mid[1]]);
      assert UsedBytes([mid[1]]) == 0;
    } else {
      assert mid == [b];
    }
    assert Live(mid) == {b};
    NotListed(bs, k, b);
  }

  lemma NotListed(bs: seq<Block>, k: nat, b: Block)
    requires k < |bs| && b.addr == bs[k].addr && b != bs[k] && Tiles(bs, HEAP_START)
    ensures b !in bs
  {
    if b in bs {
      var j :| 0 <= j < |bs| && bs[j] == b;
      if j < k { Ordered(bs, HEAP_START, j, k); }
      if k < j { Ordered(bs, HEAP_START, k, j); }
    }
  }

  /** Replacing a stretch of the list moves the live set and the byte count by that stretch. */
  lemma Spliced(a: seq<Block>, m: seq<Block>, c: seq<Block>, m': seq<Block>)
    ensures Live(a + m' + c) == Live(a) + Live(m') + Live(c) && Live(a + m + c) == Live(a) + Live(m) + Live(c)
    ensures UsedBytes(a + m' + c) - UsedBytes(m') == UsedBytes(a + m + c) - UsedBytes(m)
  {
    hide Live, UsedBytes;
    UsedConcat(a + m, c);
    UsedConcat(a, m);
    UsedConcat(a + m', c);
    UsedConcat(a, m');
    LiveConcat(a + m, c);
    LiveConcat(a, m);
    LiveConcat(a + m', c);
    LiveConcat(a, m');
  }

  lemma LiveConcat(a: seq<Block>, b: seq<Block>)
    ensures Live(a + b) == Live(a) + Live(b)
  {
  }

  /** Block k absorbs its successor. */
  function Merge(bs: seq<Block>, k: nat): seq<Block>
    requires k + 1 < |bs|
  {
    bs[..k] + [Block(bs[k].addr, bs[k].size + HEADER + bs[k + 1].size, true)] + bs[k + 2..]
  }

  lemma {:induction false} MergeKeeps(bs: seq<Block>, k: nat)
    requires k + 1 < |bs| && bs[k].free && bs[k + 1].free && Tiles(bs, HEAP_START)
    ensures Tiles(Merge(bs, k), HEAP_START) && Live(Merge(bs, k)) == Live(bs)
    ensures UsedBytes(Merge(bs, k)) == UsedBytes(bs)
  {
    var cs := Merge(bs, k);
    forall j: nat | j < |cs| ensures Meets(cs, j) {
      if j < k { assert Meets(bs, j); } else { assert Meets(bs, k) && Meets(bs, j + 1); }
    }
    assert bs == bs[..k] + bs[k..k + 2] + bs[k + 2..];
    assert bs[k..k + 2] == [bs[k], bs[k + 1]];
    Spliced(bs[..k], bs[k..k + 2], bs[k + 2..], [cs[k]]);
    UsedConcat([bs[k]], [bs[k + 1]]);
    assert bs[k..k + 2] == [bs[k]] + [bs[k + 1]];
  }

  lemma {:induction false} FreeBlock(bs: seq<Block>, k: nat)
    requires k < |bs| && !bs[k].free && Tiles(bs, HEAP_START)
    ensures var cs := bs[k := bs[k].(free := true)];
            Tiles(cs, HEAP_START) && Live(cs) == Live(bs) - {bs[k]} && UsedBytes(cs) + bs[k].size == UsedBytes(bs)
  {
    var cs := bs[k := bs[k].(free := true)];
    forall j: nat | j < |cs| ensures Meets(cs, j) { assert Meets(bs, j); }
    assert bs == bs[..k] + [bs[k]] + bs[k + 1..] && cs == bs[..k] + [cs[k]] + bs[k + 1..];
    Spliced(bs[..k], [bs[k]], bs[k + 1..], [cs[k]]);
    forall x | x in bs[..k] || x in bs[k + 1..] ensures x != bs[k] {
      if x in bs[..k] {
        var j :| 0 <= j < k && bs[..k][j] == x;
        Ordered(bs, HEAP_START, j, k);
      } else {
        var j :| 0 <= j < |bs| - k - 1 && bs[k + 1..][j] == x;
        Ordered(bs, HEAP_START, k, j + k + 1);
      }
    }
    assert Live([bs[k]]) == {bs[k]} && Live([cs[k]]) == {};
    assert UsedBytes([bs[k]]) == bs[k].size && UsedBytes([cs[k]]) == 0;
  }

  // ---------- When first fit fails ----------

  /** [a, a + HEADER + size) lies in the heap and meets no live block. */
  predicate Gap(live: set<Block>, a: nat, size: nat) {
    && HEAP_START <= a && a + HEADER + size <= HEAP_END
    && forall b | b in live :: a + HEADER + size <= b.addr || b.addr + HEADER + b.size <= a
  }

  lemma {:induction false} TileHolding(bs: seq<Block>, start: nat, x: nat) returns (k: nat)
    requires Tiles(bs, start) && start <= x < HEAP_END
    ensures k < |bs| && bs[k].addr <= x < AddrOf(bs, k + 1)
    decreases |bs|
  {
    assert Meets(bs, 0);
    if x < AddrOf(bs, 1) { return 0; }
    TailTiles(bs, start);
    k := TileHolding(bs[1..], AddrOf(bs, 1), x);
    k := k + 1;
  }

  /** Some free block is large enough exactly when some gap between live blocks is. */
  lemma {:induction false} FitsIffGap(bs: seq<Block>, size: nat)
    requires Tiles(bs, HEAP_START) && Coalesced(bs)
    ensures (exists k: nat :: k < |bs| && bs[k].free && size <= bs[k].size) <==> exists a: nat :: Gap(Live(bs), a, size)
  {
    if k: nat :| k < |bs| && bs[k].free && size <= bs[k].size {
      FreeIsGap(bs, k, size);
    }
    if a: nat :| Gap(Live(bs), a, size) {
      var k := TileHolding(bs, HEAP_START, a);
      assert Meets(bs, k);
      assert bs[k].free by { assert bs[k].free || bs[k] in Live(bs); }
      if AddrOf(bs, k + 1) < a + HEADER + size {
        Above(bs, HEAP_START, k + 1);
        assert Meets(bs, k + 1);
        assert bs[k + 1].free || bs[k + 1] in Live(bs);
      }
    }
  }

  lemma {:induction false} FreeIsGap(bs: seq<Block>, k: nat, size: nat)
    requires Tiles(bs, HEAP_START) && k < |bs| && bs[k].free && size <= bs[k].size
    ensures Gap(Live(bs), bs[k].addr, size)
  {
    Above(bs, HEAP_START, k);
    Ordered(bs, HEAP_START, k, |bs|);
    forall b | b in Live(bs)
      ensures bs[k].addr + HEADER + size <= b.addr || b.addr + HEADER + b.size <= bs[k].addr
    {
      var j :| 0 <= j < |bs| && bs[j] == b;
      if j < k { Ordered(bs, HEAP_START, j, k); } else { Ordered(bs, HEAP_START, k, j); }
    }
  }
}
