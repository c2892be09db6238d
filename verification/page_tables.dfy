/** Four-level page tables as they lie in physical memory (kernel/architecture/x86_64/paging.c,
    include/architecture/x86_64/paging.h): the walk, the frames a table owns, and the
    no-aliasing invariant. Nothing here changes memory; every definition reads a memory value. */
module PageTables {

  import opened Words

  const PAGE_SIZE: nat := 4096
  const USER_TOP: nat := 0x8000_0000_0000

  /** A 64-bit page table entry; `rest` holds the bits the kernel only ever copies. */
  datatype Entry = Entry(present: bool, writable: bool, user: bool, huge: bool, rest: nat, frame: nat)

  const EMPTY: Entry := Entry(false, false, false, false, 0, 0)

  /** A 4KB frame: a table of 512 entries or a page of bytes. */
  datatype Frame = Table(entries: seq<Entry>) | Page(bytes: seq<Byte>)

  type Memory = seq<Frame>

  predicate IsTable(mem: Memory, t: nat) {
    t < |mem| && mem[t].Table? && |mem[t].entries| == 512
  }

  predicate IsPage(mem: Memory, f: nat) {
    f < |mem| && mem[f].Page? && |mem[f].bytes| == PAGE_SIZE
  }

  /** How many entries of a table at this level the directory owns: the lower half of a PML4. */
  function Span(level: nat): nat {
    if level == 4 then 256 else 512
  }

  /** Bytes of address space under one entry at this level. */
  function Unit(level: nat): nat
    requires 1 <= level <= 4
    ensures Unit(level) > 0
  {
    match level
    case 1 => 0x1000
    case 2 => 0x20_0000
    case 3 => 0x4000_0000
    case _ => 0x80_0000_0000
  }

  /** PT_INDEX, PD_INDEX, PDPT_INDEX and PML4_INDEX for level 1, 2, 3 and 4. */
  function Index(level: nat, va: nat): nat
    requires 1 <= level <= 4
    ensures Index(level, va) < 512
  {
    va / Unit(level) % 512
  }

  function EntryAt(mem: Memory, t: nat, i: nat): Entry {
    if t < |mem| && mem[t].Table? && i < |mem[t].entries| then mem[t].entries[i] else EMPTY
  }

  /** A present entry owns what it points at, except a 2MB page, which is shared. */
  predicate Owns(level: nat, e: Entry) {
    e.present && !(level == 2 && e.huge)
  }

  /** The frames owned through entry i of table t. */
  ghost function Kid(mem: Memory, level: nat, t: nat, i: nat): set<nat>
    requires 1 <= level <= 4
    decreases level, 0
  {
    var e := EntryAt(mem, t, i);
    if !Owns(level, e) then {}
    else if level == 1 then {e.frame}
    else Frames(mem, level - 1, e.frame)
  }

  /** The frames owned by table t: itself and everything below it. */
  ghost function Frames(mem: Memory, level: nat, t: nat): set<nat>
    requires 1 <= level <= 4
    decreases level, 1
  {
    {t} + set i: nat, f | i < Span(level) && f in Kid(mem, level, t, i) :: f
  }

  /** Table t is the root of a tree: no frame below it is reached twice, tables are tables and
      leaves are pages. */
  ghost predicate Tree(mem: Memory, level: nat, t: nat)
    requires 1 <= level <= 4
    decreases level
  {
    && IsTable(mem, t)
    && (forall i: nat | i < Span(level) :: t !in Kid(mem, level, t, i))
    && (forall i: nat, j: nat | i < j < Span(level) :: Kid(mem, level, t, i) !! Kid(mem, level, t, j))
    && (forall i: nat | i < Span(level) :: KidOk(mem, level, EntryAt(mem, t, i)))
  }

  ghost predicate KidOk(mem: Memory, level: nat, e: Entry)
    requires 1 <= level <= 4
    decreases level, 0
  {
    Owns(level, e) ==>
      if level == 1 then IsPage(mem, e.frame) else Tree(mem, level - 1, e.frame)
  }

  /** What the table entries passed on a walk permit. */
  datatype Rights = Rights(writable: bool, user: bool)

  const FULL: Rights := Rights(true, true)

  /** The outcome of a walk: nothing, a 4KB page entry, or a 2MB entry met on the way; and what the
      entries above it permit. */
  datatype Walk = Unmapped(rights: Rights) | Small(e: Entry, rights: Rights) | Huge(e: Entry, rights: Rights)

  /** A walk that first passes entry e. */
  function Through(e: Entry, w: Walk): Walk {
    w.(rights := Rights(e.writable && w.rights.writable, e.user && w.rights.user))
  }

  /** The walk's outcome alone. */
  function Bare(w: Walk): Walk {
    w.(rights := FULL)
  }

  function Translate(mem: Memory, level: nat, t: nat, va: nat): Walk
    requires 1 <= level <= 4
    decreases level
  {
    var e := EntryAt(mem, t, Index(level, va));
    if !e.present then Unmapped(FULL)
    else if level == 1 then Small(e, FULL)
    else if level == 2 && e.huge then Huge(e, FULL)
    else Through(e, Translate(mem, level - 1, e.frame, va))
  }

  // ---------- Indices ----------

  /** The two addresses take the same entry at this level and at every level below. */
  predicate SameSlot(level: nat, a: nat, b: nat)
    requires 1 <= level <= 4
    decreases level
  {
    Index(level, a) == Index(level, b) && (level == 1 || SameSlot(level - 1, a, b))
  }

  lemma UserIndex(va: nat)
    requires va < USER_TOP
    ensures Index(4, va) < Span(4)
  {
  }

  /** A page number below 2^36 is determined by its four base-512 digits. */
  lemma Digits(p: nat, q: nat)
    requires p < 0x10_0000_0000 && q < 0x10_0000_0000
    requires p % 512 == q % 512 && p / 512 % 512 == q / 512 % 512
    requires p / 512 / 512 % 512 == q / 512 / 512 % 512
    requires p / 512 / 512 / 512 % 512 == q / 512 / 512 / 512 % 512
    ensures p == q
  {
    assert p / 512 / 512 / 512 < 512 && q / 512 / 512 / 512 < 512;
    assert p / 512 / 512 == q / 512 / 512;
  }

  lemma IndexOfPage(va: nat)
    ensures Index(1, va) == va / 4096 % 512
    ensures Index(2, va) == va / 4096 / 512 % 512
    ensures Index(3, va) == va / 4096 / 512 / 512 % 512
    ensures Index(4, va) == va / 4096 / 512 / 512 / 512 % 512
  {
    assert va / 0x20_0000 == va / 4096 / 512;
    assert va / 0x4000_0000 == va / 4096 / 512 / 512;
    assert va / 0x80_0000_0000 == va / 4096 / 512 / 512 / 512;
  }

  /** The four 9-bit indices are injective on user pages. */
  lemma SlotsArePages(a: nat, b: nat)
    requires a < USER_TOP && b < USER_TOP
    ensures SameSlot(4, a, b) <==> a / 4096 == b / 4096
  {
    IndexOfPage(a);
    IndexOfPage(b);
    if SameSlot(4, a, b) {
      assert SameSlot(3, a, b) && SameSlot(2, a, b) && SameSlot(1, a, b);
      Digits(a / 4096, b / 4096);
    }
    if a / 4096 == b / 4096 {
      assert SameSlot(1, a, b);
      assert SameSlot(2, a, b);
      assert SameSlot(3, a, b);
    }
  }

  // ---------- Locality of the tree ----------

  /** Page contents may differ between the two memories; tables may not. */
  predicate SameTable(mem: Memory, mem': Memory, f: nat) {
    |mem| == |mem'| && (f < |mem| ==> mem'[f] == mem[f] || (IsPage(mem, f) && IsPage(mem', f)))
  }

  lemma KidInFrames(mem: Memory, level: nat, t: nat, i: nat)
    requires 1 <= level <= 4 && i < Span(level)
    ensures Kid(mem, level, t, i) <= Frames(mem, level, t)
  {
  }

  lemma WhichKid(mem: Memory, level: nat, t: nat, f: nat) returns (i: nat)
    requires 1 <= level <= 4 && f in Frames(mem, level, t) && f != t
    ensures i < Span(level) && f in Kid(mem, level, t, i)
  {
    i :| i < Span(level) && f in Kid(mem, level, t, i);
  }

  /** A tree reads nothing but its own tables. */
  lemma {:induction false} Local(mem: Memory, mem': Memory, level: nat, t: nat)
    requires 1 <= level <= 4 && Tree(mem, level, t)
    requires |mem| == |mem'|
    requires forall f | f in Frames(mem, level, t) :: SameTable(mem, mem', f)
    ensures Tree(mem', level, t)
    ensures Frames(mem', level, t) == Frames(mem, level, t)
    ensures forall i: nat | i < Span(level) :: Kid(mem', level, t, i) == Kid(mem, level, t, i)
    ensures forall va | Index(level, va) < Span(level) :: Translate(mem', level, t, va) == Translate(mem, level, t, va)
    decreases level
  {
    assert t in Frames(mem, level, t);
    forall i: nat | i < Span(level)
      ensures Kid(mem', level, t, i) == Kid(mem, level, t, i)
      ensures KidOk(mem', level, EntryAt(mem', t, i))
      ensures forall va | Index(level, va) == i :: Translate(mem', level, t, va) == Translate(mem, level, t, va)
    {
      KidLocal(mem, mem', level, t, i);
    }
  }

  lemma {:induction false} KidLocal(mem: Memory, mem': Memory, level: nat, t: nat, i: nat)
    requires 1 <= level <= 4 && i < Span(level)
    requires |mem| == |mem'| && EntryAt(mem', t, i) == EntryAt(mem, t, i)
    requires KidOk(mem, level, EntryAt(mem, t, i))
    requires forall f | f in Kid(mem, level, t, i) :: SameTable(mem, mem', f)
    ensures Kid(mem', level, t, i) == Kid(mem, level, t, i)
    ensures KidOk(mem', level, EntryAt(mem', t, i))
    ensures forall va | Index(level, va) == i :: Translate(mem', level, t, va) == Translate(mem, level, t, va)
    decreases level, 0
  {
    var e := EntryAt(mem, t, i);
    if Owns(level, e) {
      if level == 1 {
        assert e.frame in Kid(mem, level, t, i);
      } else {
        Local(mem, mem', level - 1, e.frame);
      }
    }
  }

  /** Entry i of table t and what hangs below it changed; nothing else did. */
  ghost predicate OnlyKidChanged(mem: Memory, mem': Memory, level: nat, t: nat, i: nat)
    requires 1 <= level <= 4 && i < Span(level)
  {
    && |mem| == |mem'|
    && IsTable(mem', t)
    && (forall k: nat | k < 512 && k != i :: EntryAt(mem', t, k) == EntryAt(mem, t, k))
    && (forall k: nat, f | k < Span(level) && k != i && f in Kid(mem, level, t, k) :: SameTable(mem, mem', f))
  }

  lemma {:induction false} OtherKids(mem: Memory, mem': Memory, level: nat, t: nat, i: nat)
    requires 1 <= level <= 4 && i < Span(level)
    requires Tree(mem, level, t) && OnlyKidChanged(mem, mem', level, t, i)
    ensures forall k: nat | k < Span(level) && k != i :: Kid(mem', level, t, k) == Kid(mem, level, t, k)
    ensures forall k: nat | k < Span(level) && k != i :: KidOk(mem', level, EntryAt(mem', t, k))
    ensures forall va | Index(level, va) < Span(level) && Index(level, va) != i ::
              Translate(mem', level, t, va) == Translate(mem, level, t, va)
  {
    forall k: nat | k < Span(level) && k != i
      ensures Kid(mem', level, t, k) == Kid(mem, level, t, k)
      ensures KidOk(mem', level, EntryAt(mem', t, k))
      ensures forall va | Index(level, va) == k :: Translate(mem', level, t, va) == Translate(mem, level, t, va)
    {
      KidLocal(mem, mem', level, t, k);
    }
  }

  lemma {:induction false} ReplacedFrames(mem: Memory, mem': Memory, level: nat, t: nat, i: nat)
    requires 1 <= level <= 4 && i < Span(level)
    requires forall k: nat | k < Span(level) && k != i :: Kid(mem', level, t, k) == Kid(mem, level, t, k)
    requires forall k: nat | k < Span(level) && k != i :: Kid(mem, level, t, k) !! Kid(mem, level, t, i)
    requires t !in Kid(mem, level, t, i)
    ensures Frames(mem', level, t) == Frames(mem, level, t) - Kid(mem, level, t, i) + Kid(mem', level, t, i)
  {
    var before, after := Frames(mem, level, t), Frames(mem', level, t);
    forall f | f in after
      ensures f in before - Kid(mem, level, t, i) + Kid(mem', level, t, i)
    {
      if f != t {
        var k := WhichKid(mem', level, t, f);
      }
    }
    forall f | f in before - Kid(mem, level, t, i)
      ensures f in after
    {
      if f != t {
        var k := WhichKid(mem, level, t, f);
        assert f in Kid(mem', level, t, k);
      }
    }
    KidInFrames(mem', level, t, i);
  }

  /** Replacing what hangs below one entry keeps a tree a tree, provided the replacement shares
      no frame with the rest. */
  lemma {:induction false} ReplaceKid(mem: Memory, mem': Memory, level: nat, t: nat, i: nat)
    requires 1 <= level <= 4 && i < Span(level)
    requires Tree(mem, level, t) && OnlyKidChanged(mem, mem', level, t, i)
    requires KidOk(mem', level, EntryAt(mem', t, i))
    requires t !in Kid(mem', level, t, i)
    requires forall k: nat | k < Span(level) && k != i :: Kid(mem, level, t, k) !! Kid(mem', level, t, i)
    ensures Tree(mem', level, t)
    ensures Frames(mem', level, t) == Frames(mem, level, t) - Kid(mem, level, t, i) + Kid(mem', level, t, i)
    ensures forall va | Index(level, va) < Span(level) && Index(level, va) != i ::
              Translate(mem', level, t, va) == Translate(mem, level, t, va)
  {
    OtherKids(mem, mem', level, t, i);
    ReplacedFrames(mem, mem', level, t, i);
  }

  /** A change confined to the subtree below entry i, which stays a tree on its old frames and
      frames new to table t. */
  lemma {:induction false} LiftKid(mem: Memory, mem': Memory, level: nat, t: nat, i: nat)
    requires 2 <= level <= 4 && i < Span(level) && |mem| == |mem'|
    requires Tree(mem, level, t) && mem'[t] == mem[t] && Owns(level, EntryAt(mem, t, i))
    requires Tree(mem', level - 1, EntryAt(mem, t, i).frame)
    requires forall f | f in Frames(mem, level, t) - Kid(mem, level, t, i) ::
               SameTable(mem, mem', f) && f !in Frames(mem', level - 1, EntryAt(mem, t, i).frame)
    ensures Tree(mem', level, t)
    ensures Frames(mem', level, t) ==
            Frames(mem, level, t) - Kid(mem, level, t, i) + Frames(mem', level - 1, EntryAt(mem, t, i).frame)
    ensures forall va | Index(level, va) < Span(level) && Index(level, va) != i ::
              Translate(mem', level, t, va) == Translate(mem, level, t, va)
  {
    assert t in Frames(mem, level, t) - Kid(mem, level, t, i);
    forall k: nat | k < Span(level) && k != i
      ensures Kid(mem, level, t, k) <= Frames(mem, level, t) - Kid(mem, level, t, i)
    {
      KidInFrames(mem, level, t, k);
      assert k < i || i < k;
    }
    ReplaceKid(mem, mem', level, t, i);
  }

  // ---------- Reaching and writing a page table entry ----------

  /** Every table on the way from t down to the table at level `stop` for va is present. */
  predicate Reaches(mem: Memory, level: nat, t: nat, va: nat, stop: nat)
    requires 1 <= stop <= level <= 4
    decreases level
  {
    level == stop ||
    (var e := EntryAt(mem, t, Index(level, va));
     Owns(level, e) && Reaches(mem, level - 1, e.frame, va, stop))
  }

  /** The table at level `stop` that the walk for va passes through. */
  function TableFor(mem: Memory, level: nat, t: nat, va: nat, stop: nat): nat
    requires 1 <= stop <= level <= 4
    decreases level
  {
    if level == stop then t else TableFor(mem, level - 1, EntryAt(mem, t, Index(level, va)).frame, va, stop)
  }

  /** One level further down the walk of va. */
  lemma OneDown(mem: Memory, level: nat, t: nat, va: nat, stop: nat)
    requires 1 <= stop < level <= 4 && Index(level, va) < Span(level)
    requires Tree(mem, level, t) && Reaches(mem, level, t, va, stop)
    ensures var e := EntryAt(mem, t, Index(level, va));
            && Tree(mem, level - 1, e.frame) && Reaches(mem, level - 1, e.frame, va, stop)
            && Index(level - 1, va) < Span(level - 1)
            && Kid(mem, level, t, Index(level, va)) == Frames(mem, level - 1, e.frame) <= Frames(mem, level, t) - {t}
            && t in Frames(mem, level, t)
            && Translate(mem, level, t, va) == Through(e, Translate(mem, level - 1, e.frame, va))
            && TableFor(mem, level, t, va, stop) == TableFor(mem, level - 1, e.frame, va, stop)
  {
    assert KidOk(mem, level, EntryAt(mem, t, Index(level, va)));
    KidInFrames(mem, level, t, Index(level, va));
  }

  lemma TableOfTree(mem: Memory, level: nat, t: nat)
    requires 1 <= level <= 4 && Tree(mem, level, t)
    ensures IsTable(mem, t) && t in Frames(mem, level, t)
  {
    hide Kid, KidOk;
  }

  lemma {:induction false} TableForOwned(mem: Memory, level: nat, t: nat, va: nat, stop: nat)
    requires 1 <= stop <= level <= 4 && Index(level, va) < Span(level)
    requires Tree(mem, level, t) && Reaches(mem, level, t, va, stop)
    ensures var pt := TableFor(mem, level, t, va, stop);
            pt in Frames(mem, level, t) && IsTable(mem, pt)
    ensures Bare(Translate(mem, level, t, va)) == Bare(Translate(mem, stop, TableFor(mem, level, t, va, stop), va))
    decreases level
  {
    hide Tree, Frames, Kid, Translate, Index, IsTable, Reaches;
    TableOfTree(mem, level, t);
    if level > stop {
      OneDown(mem, level, t, va, stop);
      TableForOwned(mem, level - 1, EntryAt(mem, t, Index(level, va)).frame, va, stop);
    }
  }

  /** The page frame a 4KB mapping of va would release. */
  function LeafFrame(w: Walk): set<nat> {
    if w.Small? then {w.e.frame} else {}
  }

  function WalkOf(e: Entry, r: Rights): Walk {
    if e.present then Small(e, r) else Unmapped(r)
  }

  function SetEntry(mem: Memory, t: nat, i: nat, e: Entry): Memory
    requires IsTable(mem, t) && i < 512
  {
    mem[t := Table(mem[t].entries[i := e])]
  }

  /** The page table entry of va became e, and nothing else changed below table t. */
  ghost predicate LeafSet(mem: Memory, mem': Memory, level: nat, t: nat, va: nat, e: Entry)
    requires 1 <= level <= 4
  {
    && Tree(mem', level, t)
    && Frames(mem', level, t) ==
       Frames(mem, level, t) - LeafFrame(Translate(mem, level, t, va)) + LeafFrame(WalkOf(e, FULL))
    && forall b: nat | Index(level, b) < Span(level) ::
         Translate(mem', level, t, b) ==
         if SameSlot(level, va, b) then WalkOf(e, Translate(mem, level, t, va).rights) else Translate(mem, level, t, b)
  }

  /** Writing the page table entry of va changes the translation of exactly that page. */
  lemma {:induction false} SetLeaf(mem: Memory, level: nat, t: nat, va: nat, e: Entry, mem': Memory)
    requires 1 <= level <= 4 && Index(level, va) < Span(level)
    requires Tree(mem, level, t) && Reaches(mem, level, t, va, 1)
    requires e.present ==> IsPage(mem, e.frame)
    requires e.present ==> e.frame !in Frames(mem, level, t) - LeafFrame(Translate(mem, level, t, va))
    requires var pt := TableFor(mem, level, t, va, 1);
             IsTable(mem, pt) && mem' == SetEntry(mem, pt, Index(1, va), e)
    ensures LeafSet(mem, mem', level, t, va, e)
    decreases level
  {
    if level == 1 {
      SetLeafHere(mem, t, va, e, mem');
    } else {
      SetLeafDown(mem, level, t, va, e, mem');
      hide Tree, Frames, Translate, Kid, LeafSet, SetEntry, Reaches, TableFor, Index;
      SetLeaf(mem, level - 1, EntryAt(mem, t, Index(level, va)).frame, va, e, mem');
      SetLeafAbove(mem, level, t, va, e, mem');
    }
  }

  /** What is to be written below table t is to be written below its child. */
  lemma SetLeafDown(mem: Memory, level: nat, t: nat, va: nat, e: Entry, mem': Memory)
    requires 2 <= level <= 4 && Index(level, va) < Span(level)
    requires Tree(mem, level, t) && Reaches(mem, level, t, va, 1)
    requires e.present ==> e.frame !in Frames(mem, level, t) - LeafFrame(Translate(mem, level, t, va))
    ensures var c := EntryAt(mem, t, Index(level, va)).frame;
            && Index(level - 1, va) < Span(level - 1) && Tree(mem, level - 1, c) && Reaches(mem, level - 1, c, va, 1)
            && (e.present ==> e.frame !in Frames(mem, level - 1, c) - LeafFrame(Translate(mem, level - 1, c, va)))
            && TableFor(mem, level, t, va, 1) == TableFor(mem, level - 1, c, va, 1)
            && TableFor(mem, level, t, va, 1) in Kid(mem, level, t, Index(level, va))
  {
    hide Tree, Frames, Translate, Kid, Index, Reaches, TableFor;
    OneDown(mem, level, t, va, 1);
    Descend(mem, level, t, va, 1);
  }

  lemma Descend(mem: Memory, level: nat, t: nat, va: nat, stop: nat)
    requires 1 <= stop < level <= 4 && Index(level, va) < Span(level)
    requires Tree(mem, level, t) && Reaches(mem, level, t, va, stop)
    ensures var c := EntryAt(mem, t, Index(level, va)).frame;
            && Tree(mem, level - 1, c) && Reaches(mem, level - 1, c, va, stop)
            && Kid(mem, level, t, Index(level, va)) == Frames(mem, level - 1, c) <= Frames(mem, level, t) - {t}
            && t in Frames(mem, level, t)
            && Translate(mem, level, t, va) == Through(EntryAt(mem, t, Index(level, va)), Translate(mem, level - 1, c, va))
            && TableFor(mem, level, t, va, stop) == TableFor(mem, level - 1, c, va, stop)
            && TableFor(mem, level, t, va, stop) in Frames(mem, level - 1, c)
  {
    hide Tree, Frames, Translate, Kid, Index, Reaches, TableFor;
    OneDown(mem, level, t, va, stop);
    TableForOwned(mem, level - 1, EntryAt(mem, t, Index(level, va)).frame, va, stop);
  }

  lemma {:induction false} SetLeafAbove(mem: Memory, level: nat, t: nat, va: nat, e: Entry, mem': Memory)
    requires 2 <= level <= 4 && Index(level, va) < Span(level)
    requires Tree(mem, level, t) && Reaches(mem, level, t, va, 1)
    requires e.present ==> e.frame !in Frames(mem, level, t) - LeafFrame(Translate(mem, level, t, va))
    requires var pt := TableFor(mem, level, t, va, 1);
             && IsTable(mem, pt)
             && mem' == SetEntry(mem, pt, Index(1, va), e)
             && pt in Kid(mem, level, t, Index(level, va))
    requires LeafSet(mem, mem', level - 1, EntryAt(mem, t, Index(level, va)).frame, va, e)
    ensures LeafSet(mem, mem', level, t, va, e)
  {
    hide Tree, Frames, Kid;
    var i := Index(level, va);
    Descend(mem, level, t, va, 1);
    SubtreeLeaf(mem, level, t, va);
    LiftKid(mem, mem', level, t, i);
  }

  lemma SubtreeLeaf(mem: Memory, level: nat, t: nat, va: nat)
    requires 2 <= level <= 4 && Index(level, va) < Span(level)
    requires Tree(mem, level, t) && Reaches(mem, level, t, va, 1)
    ensures LeafFrame(Translate(mem, level, t, va)) <= Kid(mem, level, t, Index(level, va))
    decreases level
  {
    LeafOwned(mem, level - 1, EntryAt(mem, t, Index(level, va)).frame, va);
  }

  lemma {:induction false} LeafOwned(mem: Memory, level: nat, t: nat, va: nat)
    requires 1 <= level <= 4 && Index(level, va) < Span(level) && Tree(mem, level, t)
    ensures LeafFrame(Translate(mem, level, t, va)) <= Frames(mem, level, t) - {t}
    ensures Translate(mem, level, t, va).Small? ==>
              Translate(mem, level, t, va).e.present &&
              IsPage(mem, Translate(mem, level, t, va).e.frame)
    decreases level
  {
    var e := EntryAt(mem, t, Index(level, va));
    if Owns(level, e) {
      assert KidOk(mem, level, e);
      KidInFrames(mem, level, t, Index(level, va));
      if level == 1 {
        assert e.frame in Kid(mem, level, t, Index(level, va));
      } else {
        LeafOwned(mem, level - 1, e.frame, va);
      }
    }
  }

  lemma {:induction false} SetLeafHere(mem: Memory, t: nat, va: nat, e: Entry, mem': Memory)
    requires Tree(mem, 1, t) && mem' == SetEntry(mem, t, Index(1, va), e)
    requires e.present ==> IsPage(mem, e.frame)
    requires e.present ==> e.frame !in Frames(mem, 1, t) - Kid(mem, 1, t, Index(1, va))
    ensures LeafSet(mem, mem', 1, t, va, e)
  {
    var i := Index(1, va);
    forall k: nat, f | k < 512 && k != i && f in Kid(mem, 1, t, k)
      ensures SameTable(mem, mem', f) && f in Frames(mem, 1, t) - Kid(mem, 1, t, i)
    {
      KidInFrames(mem, 1, t, k);
      assert k < i || i < k;
    }
    ReplaceKid(mem, mem', 1, t, i);
  }

  // ---------- What a directory means ----------

  const USER_PAGES: nat := 0x8_0000_0000

  /** A directory as a finite map from user page numbers to entries. */
  ghost function Space(mem: Memory, root: nat): map<nat, Walk> {
    map p: nat | p < USER_PAGES && !Translate(mem, 4, root, p * 4096).Unmapped? :: Translate(mem, 4, root, p * 4096)
  }

  /** Entry e under the rights of the entries above it. */
  function Limited(e: Entry, r: Rights): Entry {
    e.(writable := e.writable && r.writable, user := e.user && r.user)
  }

  /** What a process can observe of a page: its effective entry without the frame number, and its
      contents. */
  datatype PageView = PageView(entry: Entry, content: Frame)

  function Look(mem: Memory, w: Walk): PageView {
    match w
    case Small(e, r) => PageView(Limited(e, r).(frame := 0), if e.frame < |mem| then mem[e.frame] else Table([]))
    case Huge(e, r) => PageView(Limited(e, r), Table([]))
    case Unmapped(_) => PageView(EMPTY, Table([]))
  }

  /** A directory as the process sees it. */
  ghost function View(mem: Memory, root: nat): map<nat, PageView> {
    map p | p in Space(mem, root) :: Look(mem, Space(mem, root)[p])
  }

  /** No table entry of the directory takes a right away from a page below it. */
  ghost predicate AllOpen(mem: Memory, root: nat) {
    forall va: nat | va < USER_TOP :: Translate(mem, 4, root, va).rights == FULL
  }

  lemma PageIndex(p: nat)
    requires p < USER_PAGES
    ensures Index(4, p * 4096) < Span(4)
  {
  }

  lemma InSpace(mem: Memory, root: nat, va: nat)
    requires va < USER_TOP
    ensures va / 4096 in Space(mem, root) <==> !Translate(mem, 4, root, va).Unmapped?
    ensures va / 4096 in Space(mem, root) ==> Space(mem, root)[va / 4096] == Translate(mem, 4, root, va)
  {
    SlotsArePages(va, va / 4096 * 4096);
    SameWalk(mem, 4, root, va, va / 4096 * 4096);
  }

  lemma {:induction false} SameWalk(mem: Memory, level: nat, t: nat, a: nat, b: nat)
    requires 1 <= level <= 4 && SameSlot(level, a, b)
    ensures Translate(mem, level, t, a) == Translate(mem, level, t, b)
    decreases level
  {
    if level > 1 { SameWalk(mem, level - 1, EntryAt(mem, t, Index(level, a)).frame, a, b); }
  }

  /** A directory whose frames keep their contents keeps its mappings and its bytes. */
  lemma {:induction false} Isolated(mem: Memory, mem': Memory, root: nat)
    requires Tree(mem, 4, root) && |mem| == |mem'|
    requires forall f | f in Frames(mem, 4, root) :: f < |mem| ==> mem'[f] == mem[f]
    ensures Tree(mem', 4, root) && Frames(mem', 4, root) == Frames(mem, 4, root)
    ensures Space(mem', root) == Space(mem, root)
    ensures View(mem', root) == View(mem, root)
    ensures forall va: nat | va < USER_TOP :: Translate(mem', 4, root, va) == Translate(mem, 4, root, va)
    ensures AllOpen(mem, root) ==> AllOpen(mem', root)
  {
    hide Tree, Frames, Translate, Kid, Index;
    Local(mem, mem', 4, root);
    forall va: nat | va < USER_TOP ensures Translate(mem', 4, root, va) == Translate(mem, 4, root, va) { UserIndex(va); }
    forall p: nat | p < USER_PAGES
      ensures Translate(mem', 4, root, p * 4096) == Translate(mem, 4, root, p * 4096)
      ensures Look(mem', Translate(mem, 4, root, p * 4096)) == Look(mem, Translate(mem, 4, root, p * 4096))
    {
      PageIndex(p);
      LeafOwned(mem, 4, root, p * 4096);
    }
  }

  /** The contents of one leaf page changed and nothing else. */
  lemma {:induction false} PageChanged(mem: Memory, root: nat, va: nat, fr: Frame, mem': Memory)
    requires Tree(mem, 4, root) && va < USER_TOP && Translate(mem, 4, root, va).Small?
    requires fr.Page? && |fr.bytes| == PAGE_SIZE
    requires Translate(mem, 4, root, va).e.frame < |mem|
    requires mem' == mem[Translate(mem, 4, root, va).e.frame := fr]
    ensures Tree(mem', 4, root) && Frames(mem', 4, root) == Frames(mem, 4, root)
    ensures Space(mem', root) == Space(mem, root)
    ensures va / 4096 in View(mem, root)
    ensures View(mem, root)[va / 4096].content == mem[Translate(mem, 4, root, va).e.frame]
    ensures View(mem', root) == View(mem, root)[va / 4096 := View(mem, root)[va / 4096].(content := fr)]
    ensures AllOpen(mem, root) ==> AllOpen(mem', root)
  {
    hide Tree, Frames, Translate, Index;
    UserIndex(va);
    InSpace(mem, root, va);
    LeafOwned(mem, 4, root, va);
    Local(mem, mem', 4, root);
    forall b: nat | b < USER_TOP ensures Translate(mem', 4, root, b) == Translate(mem, 4, root, b) { UserIndex(b); }
    var w := Translate(mem, 4, root, va);
    forall p: nat | p < USER_PAGES
      ensures Translate(mem', 4, root, p * 4096) == Translate(mem, 4, root, p * 4096)
      ensures Translate(mem, 4, root, p * 4096).Small? && p != va / 4096 ==>
                Translate(mem, 4, root, p * 4096).e.frame != w.e.frame
    {
      PageIndex(p);
      if Translate(mem, 4, root, p * 4096).Small? && p != va / 4096 {
        SlotsArePages(va, p * 4096);
        LeavesDistinct(mem, 4, root, va, p * 4096);
      }
    }
  }

  /** Two user pages never share a frame. */
  lemma {:induction false} LeavesDistinct(mem: Memory, level: nat, t: nat, a: nat, b: nat)
    requires 1 <= level <= 4 && Tree(mem, level, t) && !SameSlot(level, a, b)
    requires Index(level, a) < Span(level) && Index(level, b) < Span(level)
    requires Translate(mem, level, t, a).Small? && Translate(mem, level, t, b).Small?
    ensures Translate(mem, level, t, a).e.frame != Translate(mem, level, t, b).e.frame
    decreases level
  {
    var i, j := Index(level, a), Index(level, b);
    LeafInKid(mem, level, t, a);
    LeafInKid(mem, level, t, b);
    if i == j {
      assert KidOk(mem, level, EntryAt(mem, t, i));
      LeavesDistinct(mem, level - 1, EntryAt(mem, t, i).frame, a, b);
    } else {
      assert i < j || j < i;
    }
  }

  lemma {:induction false} LeafInKid(mem: Memory, level: nat, t: nat, va: nat)
    requires 1 <= level <= 4 && Tree(mem, level, t) && Index(level, va) < Span(level)
    requires Translate(mem, level, t, va).Small?
    ensures Translate(mem, level, t, va).e.frame in Kid(mem, level, t, Index(level, va))
  {
    var e := EntryAt(mem, t, Index(level, va));
    assert KidOk(mem, level, e);
    if level > 1 { LeafOwned(mem, level - 1, e.frame, va); }
  }
}
