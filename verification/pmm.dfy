/** The physical memory manager (kernel/memory/pmm.c): one bit per 4KB page, lowest free page first. */
module Pmm {
  import opened Wrappers

  /** The mask `1 << k`, as a table so that the solver never shifts by a symbolic amount. */
  function Mask(k: nat): bv8
    requires k < 8
  {
    match k
    case 0 => 1 case 1 => 2 case 2 => 4 case 3 => 8
    case 4 => 16 case 5 => 32 case 6 => 64 case _ => 128
  }

  /** Bit k of a bitmap byte. */
  predicate Bit(b: bv8, k: nat)
    requires k < 8
  {
    b & Mask(k) != 0
  }

  lemma MaskIsShift(k: nat)
    requires k < 8
    ensures Mask(k) == (1 as bv8) << k
  {
    if k == 0 {} else if k == 1 {} else if k == 2 {} else if k == 3 {}
    else if k == 4 {} else if k == 5 {} else if k == 6 {} else {}
  }

  lemma SingleBits(b: bv8, m: bv8, n: bv8)
    requires m != 0 && m & (m - 1) == 0
    requires n != 0 && n & (n - 1) == 0
    ensures ((b | m) & n != 0) == (m == n || b & n != 0)
    ensures ((b & !m) & n != 0) == (m != n && b & n != 0)
  {
  }

  lemma MaskInjective(k: nat, j: nat)
    requires k < 8 && j < 8
    ensures Mask(k) != 0 && Mask(k) & (Mask(k) - 1) == 0
    ensures Mask(k) == Mask(j) <==> k == j
  {
  }

  /** `|= mask` and `&= ~mask` change the one bit and keep the other seven. */
  lemma SetAndClear(b: bv8, k: nat, j: nat)
    requires k < 8 && j < 8
    ensures Bit(b | Mask(k), j) == (j == k || Bit(b, j))
    ensures Bit(b & !Mask(k), j) == (j != k && Bit(b, j))
    ensures Mask(k) == (1 as bv8) << k
  {
    MaskIsShift(k);
    MaskInjective(k, j);
    MaskInjective(j, k);
    SingleBits(b, Mask(k), Mask(j));
  }

  predicate UsedBit(bitmap: seq<bv8>, p: nat)
    requires p / 8 < |bitmap|
  {
    Bit(bitmap[p / 8], p % 8)
  }

  function With(bitmap: seq<bv8>, p: nat): seq<bv8>
    requires p / 8 < |bitmap|
  {
    bitmap[p / 8 := bitmap[p / 8] | Mask(p % 8)]
  }

  function Without(bitmap: seq<bv8>, p: nat): seq<bv8>
    requires p / 8 < |bitmap|
  {
    bitmap[p / 8 := bitmap[p / 8] & !Mask(p % 8)]
  }

  lemma SetPage(bitmap: seq<bv8>, p: nat, q: nat)
    requires p / 8 < |bitmap| && q / 8 < |bitmap|
    ensures UsedBit(With(bitmap, p), q) == (q == p || UsedBit(bitmap, q))
  {
    if q / 8 == p / 8 {
      SameByte(p, q);
      SetAndClear(bitmap[p / 8], p % 8, q % 8);
      assert With(bitmap, p)[p / 8] == bitmap[p / 8] | Mask(p % 8);
    } else {
      assert With(bitmap, p)[q / 8] == bitmap[q / 8];
    }
  }

  lemma ClearPage(bitmap: seq<bv8>, p: nat, q: nat)
    requires p / 8 < |bitmap| && q / 8 < |bitmap|
    ensures UsedBit(Without(bitmap, p), q) == (q != p && UsedBit(bitmap, q))
  {
    if q / 8 == p / 8 {
      SameByte(p, q);
      SetAndClear(bitmap[p / 8], p % 8, q % 8);
      assert Without(bitmap, p)[p / 8] == bitmap[p / 8] & !Mask(p % 8);
    } else {
      assert Without(bitmap, p)[q / 8] == bitmap[q / 8];
    }
  }

  lemma SameByte(p: nat, q: nat)
    requires p / 8 == q / 8
    ensures p == q <==> p % 8 == q % 8
  {
  }

  class FrameAllocator {
    var bitmap: seq<bv8>
    const total: nat
    ghost var used: set<nat>  // the page numbers whose bit is set
    var usedPages: int  // the uint64_t counter is this value modulo 2^64

    /** Any bitmap that reserves page 0, with whatever count pmm_init arrived at. */
    constructor (bitmap: seq<bv8>, total: nat, usedPages: int)
      requires |bitmap| == total / 8 + 1 && 0 < total <= 0x100_0000_0000 && UsedBit(bitmap, 0)
      ensures Valid() && this.bitmap == bitmap && this.total == total && this.usedPages == usedPages
    {
      this.bitmap, this.total, this.usedPages := bitmap, total, usedPages;
      used := set p: nat | 0 <= p < total && UsedBit(bitmap, p);
    }

    ghost predicate Valid()
      reads this
    {
      && |bitmap| == total / 8 + 1
      && 0 < total <= 0x100_0000_0000
      && (forall p: nat {:trigger UsedBit(bitmap, p)} :: p < total ==> (UsedBit(bitmap, p) <==> p in used))
      && (forall p: nat :: p in used ==> p < total)
      && 0 in used
    }

    /** used_pages minus the number of set bits. */
    ghost function Drift(): int
      reads this
    {
      usedPages - |used|
    }

    /** pmm_alloc: None is the out-of-memory panic. */
    method Alloc() returns (r: Option<nat>)
      requires Valid()
      modifies this
      ensures Valid()
      ensures r.None? <==> forall p: nat :: p < total ==> p in old(used)
      ensures r.None? ==> used == old(used) && usedPages == old(usedPages)
      ensures r.Some? ==>
                && 0 < r.value < total
                && r.value !in old(used)
                && (forall q: nat :: q < r.value ==> q in old(used))
                && used == old(used) + {r.value}
      ensures Drift() == old(Drift())
    {
      var i := 0;
      while i < total
        invariant 0 <= i <= total
        invariant forall q: nat :: q < i ==> q in used
        invariant bitmap == old(bitmap) && used == old(used) && usedPages == old(usedPages)
      {
        if !UsedBit(bitmap, i) {
          forall q: nat | q < total
            ensures UsedBit(With(bitmap, i), q) == (q == i || UsedBit(bitmap, q))
          {
            SetPage(bitmap, i, q);
          }
          bitmap := With(bitmap, i);
          usedPages := usedPages + 1;
          used := used + {i};
          return Some(i);
        }
        i := i + 1;
      }
      return None;
    }

    /** pmm_free of page p; page 0 (the null pointer) is ignored. */
    method Free(p: nat)
      requires Valid()
      requires p < total
      modifies this
      ensures Valid()
      ensures used == if p == 0 then old(used) else old(used) - {p}
      ensures Drift() == (if p == 0 || p in old(used) then old(Drift()) else old(Drift()) - 1)
    {
      if p == 0 { return; }
      forall q: nat | q < total
        ensures UsedBit(Without(bitmap, p), q) == (q != p && UsedBit(bitmap, q))
      {
        ClearPage(bitmap, p, q);
      }
      bitmap := Without(bitmap, p);
      usedPages := usedPages - 1;
      used := used - {p};
      if p !in old(used) {
        assert old(used) - {p} == old(used);
      }
    }
  }
}
