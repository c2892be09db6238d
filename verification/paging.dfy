/** Address spaces (kernel/architecture/x86_64/paging.c): the operations that change page tables.
    None is the kernel panic taken when no physical page is free. */
module Paging {
  import opened Wrappers
  import opened Pmm
  import opened Words
  import opened PageTables
  import opened DirectoryCopy

  const NO_ENTRIES: seq<Entry> := seq(512, _ => EMPTY)

  /** An entry for a fresh lower table: present, writable, user. */
  function TableEntry(c: nat): Entry {
    Entry(true, true, true, false, 0, c)
  }

  lemma {:induction false} EmptyTree(mem: Memory, level: nat, t: nat)
    requires 1 <= level <= 4 && IsTable(mem, t)
    requires forall i: nat | i < Span(level) :: EntryAt(mem, t, i) == EMPTY
    ensures Tree(mem, level, t) && Frames(mem, level, t) == {t}
    ensures forall va: nat | Index(level, va) < Span(level) :: Translate(mem, level, t, va) == Unmapped(FULL)
  {
    forall i: nat | i < Span(level) ensures Kid(mem, level, t, i) == {} { }
  }

  /** Table t owns `added` in addition and translates every address as before. */
  ghost predicate Grown(mem: Memory, mem': Memory, level: nat, t: nat, added: set<nat>)
    requires 1 <= level <= 4
  {
    && Tree(mem', level, t)
    && Frames(mem', level, t) == Frames(mem, level, t) + added
    && forall va: nat | Index(level, va) < Span(level) ::
         Translate(mem', level, t, va) == Translate(mem, level, t, va)
  }

  /** Hanging a fresh empty table below an absent entry translates nothing new. */
  lemma {:induction false} Sprout(mem: Memory, mem': Memory, level: nat, t: nat, i: nat, c: nat)
    requires 2 <= level <= 4 && i < Span(level) && Tree(mem, level, t) && !EntryAt(mem, t, i).present
    requires c < |mem| && c !in Frames(mem, level, t)
    requires mem' == SetEntry(mem[c := Table(NO_ENTRIES)], t, i, TableEntry(c))
    ensures Grown(mem, mem', level, t, {c})
    ensures EntryAt(mem', t, i) == TableEntry(c)
  {
    assert t in Frames(mem, level, t);
    EmptyTree(mem', level - 1, c);
    assert Kid(mem, level, t, i) == {} && Kid(mem', level, t, i) == {c};
    forall k: nat | k < Span(level) ensures Kid(mem, level, t, k) <= Frames(mem, level, t) {
      KidInFrames(mem, level, t, k);
    }
    ReplaceKid(mem, mem', level, t, i);
  }

  /** Growth below entry i is growth of table t. */
  lemma {:induction false} LiftGrowth(mem: Memory, mem': Memory, level: nat, t: nat, i: nat, added: set<nat>)
    requires 2 <= level <= 4 && i < Span(level) && |mem| == |mem'|
    requires Tree(mem, level, t) && mem'[t] == mem[t] && Owns(level, EntryAt(mem, t, i))
    requires Grown(mem, mem', level - 1, EntryAt(mem, t, i).frame, added)
    requires added !! Frames(mem, level, t)
    requires forall f | f in Frames(mem, level, t) - Kid(mem, level, t, i) :: SameTable(mem, mem', f)
    ensures Grown(mem, mem', level, t, added)
  {
    KidInFrames(mem, level, t, i);
    LiftKid(mem, mem', level, t, i);
  }

  /** The same, for an entry of a table further down the walk of va. */
  lemma {:induction false} SproutBelow(mem: Memory, mem': Memory, level: nat, t: nat, va: nat, stop: nat, c: nat)
    requires 2 <= stop <= level <= 4 && Index(level, va) < Span(level)
    requires Tree(mem, level, t) && Reaches(mem, level, t, va, stop)
    requires c < |mem| && c !in Frames(mem, level, t)
    requires var pt := TableFor(mem, level, t, va, stop);
             && IsTable(mem, pt) && pt != c && !EntryAt(mem, pt, Index(stop, va)).present
             && mem' == SetEntry(mem[c := Table(NO_ENTRIES)], pt, Index(stop, va), TableEntry(c))
    ensures Grown(mem, mem', level, t, {c})
    ensures Reaches(mem', level, t, va, stop - 1) && TableFor(mem', level, t, va, stop - 1) == c
    decreases level
  {
    hide Tree, Frames, Translate, Kid, Grown, Index;
    var i := Index(level, va);
    if level == stop {
      Sprout(mem, mem', level, t, i, c);
      assert Reaches(mem', level - 1, c, va, stop - 1) && TableFor(mem', level - 1, c, va, stop - 1) == c;
    } else {
      Descend(mem, level, t, va, stop);
      SproutBelow(mem, mem', level - 1, EntryAt(mem, t, i).frame, va, stop, c);
      assert EntryAt(mem', t, i) == EntryAt(mem, t, i);
      LiftGrowth(mem, mem', level, t, i, {c});
    }
  }

  /** A present entry on the walk extends it by one level. */
  lemma {:induction false} StepDown(mem: Memory, level: nat, t: nat, va: nat, stop: nat)
    requires 2 <= stop <= level <= 4 && Reaches(mem, level, t, va, stop)
    requires Owns(stop, EntryAt(mem, TableFor(mem, level, t, va, stop), Index(stop, va)))
    ensures Reaches(mem, level, t, va, stop - 1)
    ensures TableFor(mem, level, t, va, stop - 1) ==
            EntryAt(mem, TableFor(mem, level, t, va, stop), Index(stop, va)).frame
    decreases level
  {
    if level > stop {
      StepDown(mem, level - 1, EntryAt(mem, t, Index(level, va)).frame, va, stop);
    }
  }

  /** The entry map_page_in writes. */
  function PageEntry(paddr: nat, flags: nat): Entry {
    Entry(flags % 2 == 1, flags / 2 % 2 == 1, flags / 4 % 2 == 1, false, 0, paddr / 4096)
  }

  /** The bits of that entry, by the masks 1 (PAGE_PRESENT), 2 (PAGE_WRITABLE) and 4 (PAGE_USER). */
  ghost predicate Carries(e: Entry, flags: nat) {
    && (e.present <==> flags % 2 == 1) && (e.writable <==> flags / 2 % 2 == 1) && (e.user <==> flags / 4 % 2 == 1)
    && !e.huge && e.rest == 0
  }

  function Remapped(space: map<nat, Walk>, p: nat, e: Entry, r: Rights): map<nat, Walk> {
    if e.present then space[p := Small(e, r)] else space - {p}
  }

  lemma RoundedWalk(mem: Memory, root: nat, vaddr: nat)
    requires vaddr < USER_TOP
    ensures Translate(mem, 4, root, vaddr / 4096 * 4096) == Translate(mem, 4, root, vaddr)
  {
    SlotsArePages(vaddr, vaddr / 4096 * 4096);
    SameWalk(mem, 4, root, vaddr, vaddr / 4096 * 4096);
  }

  lemma {:induction false} SpaceSet(m0: Memory, m1: Memory, m2: Memory, root: nat, va: nat, e: Entry, added: set<nat>)
    requires va < USER_TOP && va % 4096 == 0
    requires Grown(m0, m1, 4, root, added) && LeafSet(m1, m2, 4, root, va, e)
    ensures Space(m2, root) == Remapped(Space(m0, root), va / 4096, e, Translate(m0, 4, root, va).rights)
    ensures AllOpen(m0, root) ==> AllOpen(m2, root)
  {
    hide Tree, Frames, Translate, Kid, SameSlot, Index;
    UserIndex(va);
    forall b: nat | b < USER_TOP
      ensures Translate(m2, 4, root, b).rights == Translate(m0, 4, root, b).rights ||
              Translate(m2, 4, root, b).rights == Translate(m0, 4, root, va).rights
    {
      UserIndex(b);
    }
    forall p: nat | p < USER_PAGES
      ensures Translate(m2, 4, root, p * 4096) ==
              if p == va / 4096 then WalkOf(e, Translate(m0, 4, root, va).rights) else Translate(m0, 4, root, p * 4096)
    {
      PageIndex(p);
      SlotsArePages(va, p * 4096);
    }
  }

  function PhysicalOf(space: map<nat, Walk>, va: nat): nat {
    if va / 4096 in space && space[va / 4096].Small? then space[va / 4096].e.frame * 4096 + va % 4096 else 0
  }

  lemma {:induction false} EmptyDirectory(mem: Memory, root: nat)
    requires IsTable(mem, root) && mem[root].entries[..256] == NO_ENTRIES[..256]
    ensures Tree(mem, 4, root) && Frames(mem, 4, root) == {root} && Space(mem, root) == map[] && AllOpen(mem, root)
  {
    hide Tree, Frames, Kid, Translate, Index;
    forall i: nat | i < 256 ensures EntryAt(mem, root, i) == EMPTY {
      assert mem[root].entries[..256][i] == NO_ENTRIES[..256][i];
    }
    EmptyTree(mem, 4, root);
    forall p: nat | p < USER_PAGES ensures Translate(mem, 4, root, p * 4096) == Unmapped(FULL) { PageIndex(p); }
    forall va: nat | va < USER_TOP ensures Translate(mem, 4, root, va) == Unmapped(FULL) { UserIndex(va); }
  }

  /** A fresh empty table is ready to receive a copy. */
  lemma {:induction false} BeginCopy(mem: Memory, mem': Memory, used: set<nat>, level: nat, src: nat, c: nat, dst: nat)
    requires 1 <= level <= 4 && |mem| == |mem'| && Tree(mem, level, src) && Frames(mem, level, src) <= used - {dst}
    requires IsTable(mem', c) && c !in used && mem'[c].entries[..256] == NO_ENTRIES[..256]
    requires level < 4 ==> mem'[c].entries == NO_ENTRIES
    requires forall f | f in used && f != dst :: f < |mem| ==> mem'[f] == mem[f]
    ensures Copying(mem', used + {c}, level, src, c, 0)
    ensures Frames(mem', level, c) == {c} && Frames(mem', level, src) == Frames(mem, level, src)
  {
    hide Tree, Frames, Kid, Translate;
    Local(mem, mem', level, src);
    forall i: nat | i < Span(level) ensures EntryAt(mem', c, i) == EMPTY {
      assert i < 256 ==> mem'[c].entries[..256][i] == NO_ENTRIES[..256][i];
    }
    EmptyTree(mem', level, c);
  }

  lemma DirectoryTable(mem: Memory, root: nat)
    requires Tree(mem, 4, root)
    ensures IsTable(mem, root) && root in Frames(mem, 4, root)
    ensures KernelHalf(mem, root) == mem[root].entries[256..]
  {
    hide Kid, KidOk;
  }

  ghost function KidsUpTo(mem: Memory, level: nat, t: nat, n: nat): set<nat>
    requires 1 <= level <= 4
  {
    set i: nat, f | i < n && f in Kid(mem, level, t, i) :: f
  }

  lemma {:induction false} NextKid(mem: Memory, level: nat, t: nat, n: nat)
    requires 1 <= level <= 4 && n < Span(level) && Tree(mem, level, t)
    ensures KidsUpTo(mem, level, t, n + 1) == KidsUpTo(mem, level, t, n) + Kid(mem, level, t, n)
    ensures KidsUpTo(mem, level, t, n) !! Kid(mem, level, t, n)
    ensures Kid(mem, level, t, n) <= Frames(mem, level, t)
  {
    KidInFrames(mem, level, t, n);
    forall f | f in KidsUpTo(mem, level, t, n + 1)
      ensures f in KidsUpTo(mem, level, t, n) + Kid(mem, level, t, n)
    {
      var i: nat :| i < n + 1 && f in Kid(mem, level, t, i);
    }
  }

  lemma {:induction false} KidShape(mem: Memory, level: nat, t: nat, n: nat)
    requires 1 <= level <= 4 && n < Span(level) && Tree(mem, level, t)
    ensures var e := EntryAt(mem, t, n);
            if !Owns(level, e) then Kid(mem, level, t, n) == {}
            else if level == 1 then Kid(mem, level, t, n) == {e.frame}
            else Tree(mem, level - 1, e.frame) && e.frame in Frames(mem, level - 1, e.frame) &&
                 Kid(mem, level, t, n) == Frames(mem, level - 1, e.frame)
  {
    assert KidOk(mem, level, EntryAt(mem, t, n));
  }

  lemma {:induction false} AllKids(mem: Memory, level: nat, t: nat)
    requires 1 <= level <= 4 && Tree(mem, level, t)
    ensures KidsUpTo(mem, level, t, 0) == {}
    ensures KidsUpTo(mem, level, t, Span(level)) == Frames(mem, level, t) - {t}
  {
  }

  /** The view after a one-byte store. */
  ghost function Stored(view: map<nat, PageView>, va: nat, b: Byte): map<nat, PageView> {
    var p := va / 4096;
    if p in view && view[p].content.Page? && va % 4096 < |view[p].content.bytes| then
      view[p := view[p].(content := Page(view[p].content.bytes[va % 4096 := b]))]
    else view
  }

  const ZEROS: seq<Byte> := seq(PAGE_SIZE, _ => 0)

  /** Mapping a page outside the directory adds it to the view and changes nothing else in it. */
  lemma {:induction false} ViewRemapped(mem: Memory, mem': Memory, root: nat, p: nat, e: Entry, r: Rights)
    requires Tree(mem, 4, root) && |mem| == |mem'|
    requires Space(mem', root) == Space(mem, root)[p := Small(e, r)]
    requires forall f | f in Frames(mem, 4, root) && f < |mem| && mem[f].Page? :: mem'[f] == mem[f]
    ensures View(mem', root) == View(mem, root)[p := Look(mem', Small(e, r))]
  {
    hide Tree, Frames, Translate, Index;
    forall q | q in Space(mem, root) && q != p
      ensures Look(mem', Space(mem, root)[q]) == Look(mem, Space(mem, root)[q])
    {
      PageIndex(q);
      LeafOwned(mem, 4, root, q * 4096);
    }
  }

  /** The new page is both newly used and newly owned. */
  lemma FreshPage(frames: set<nat>, used: set<nat>, used': set<nat>, leaf: set<nat>, page: nat)
    requires frames <= used && page !in used && page in used' && leaf <= frames
    ensures frames + (used' - (used + {page})) - leaf + {page} == frames + (used' - used) - leaf
  {
  }

  class Machine {
    const pmm: FrameAllocator
    var mem: Memory
    const kernelPml4: seq<Entry>  // the kernel's own top-level table, fixed here

    constructor (pmm: FrameAllocator, mem: Memory, kernelPml4: seq<Entry>)
      requires |kernelPml4| == 512
      ensures this.pmm == pmm && this.mem == mem && this.kernelPml4 == kernelPml4
    {
      this.pmm, this.mem, this.kernelPml4 := pmm, mem, kernelPml4;
    }

    ghost predicate Sane()
      reads this, pmm
    {
      pmm.Valid() && |mem| == pmm.total && |kernelPml4| == 512
    }

    /** Pages may have been allocated; used frames, except tables in `dirty`, kept their contents. */
    twostate predicate Grew(dirty: set<nat>)
      reads this, pmm
    {
      && old(Sane()) && Sane()
      && old(pmm.used) <= pmm.used
      && pmm.Drift() == old(pmm.Drift())
      && forall f | f in old(pmm.used) && (f !in dirty || old(mem)[f].Page?) :: mem[f] == old(mem)[f]
    }

    /** No page is free: the only reason for an out-of-memory panic. */
    ghost predicate Exhausted()
      requires pmm.Valid()
      reads this, pmm
    {
      forall p: nat | p < pmm.total :: p in pmm.used
    }

    /** pmm_alloc seen from memory: a page of unknown bytes. */
    method AllocPage() returns (p: Option<nat>)
      requires Sane()
      modifies this, pmm
      ensures Grew({})
      ensures p.None? ==> Exhausted()
      ensures p.Some? ==>
                && 0 < p.value < |mem| && p.value !in old(pmm.used)
                && pmm.used == old(pmm.used) + {p.value}
                && IsPage(mem, p.value) && mem == old(mem)[p.value := mem[p.value]]
    {
      p := pmm.Alloc();
      if p.Some? {
        var raw: seq<Byte> := *;
        if |raw| != PAGE_SIZE {
          raw := seq(PAGE_SIZE, _ => 0);
        }
        mem := mem[p.value := Page(raw)];
      }
    }

    /** alloc_table: a fresh table with every entry zero. */
    method AllocTable() returns (p: Option<nat>)
      requires Sane()
      modifies this, pmm
      ensures Grew({})
      ensures p.None? ==> Exhausted()
      ensures p.Some? ==>
                && 0 < p.value < |mem| && p.value !in old(pmm.used)
                && pmm.used == old(pmm.used) + {p.value}
                && mem == old(mem)[p.value := Table(NO_ENTRIES)]
    {
      p := AllocPage();
      if p.Some? {
        mem := mem[p.value := Table(NO_ENTRIES)];
      }
    }

    /** One level of get_pt_entry with create=1: the table below entry Index(level, va) of table t. */
    method EnsureKid(root: nat, level: nat, t: nat, va: nat) returns (child: Option<nat>)
      requires Sane() && 2 <= level <= 4 && Index(4, va) < Span(4)
      requires Tree(mem, 4, root) && Frames(mem, 4, root) <= pmm.used
      requires Reaches(mem, 4, root, va, level) && t == TableFor(mem, 4, root, va, level)
      requires !Translate(mem, 4, root, va).Huge?
      modifies this, pmm
      ensures Grew(old(Frames(mem, 4, root)))
      ensures child.None? ==> Exhausted()
      ensures child.Some? ==>
                && Grown(old(mem), mem, 4, root, pmm.used - old(pmm.used))
                && Reaches(mem, 4, root, va, level - 1) && child.value == TableFor(mem, 4, root, va, level - 1)
    {
      hide Tree, Frames, Kid, Index, TableFor;
      var i := Index(level, va);
      TableForOwned(mem, 4, root, va, level);
      if EntryAt(mem, t, i).present {
        StepDown(mem, 4, root, va, level);
        assert pmm.used - old(pmm.used) == {};
        return Some(EntryAt(mem, t, i).frame);
      }
      child := AllocTable();
      if child.Some? {
        mem := SetEntry(mem, t, i, TableEntry(child.value));
        assert Grew(old(Frames(mem, 4, root)));
        assert pmm.used - old(pmm.used) == {child.value};
        SproutBelow(old(mem), mem, 4, root, va, level, child.value);
      }
    }

    /** get_pt_entry with create=1: the page table for va, its ancestors created where absent. */
    method EnsurePath(root: nat, va: nat) returns (pt: Option<nat>)
      requires Sane() && Index(4, va) < Span(4)
      requires Tree(mem, 4, root) && Frames(mem, 4, root) <= pmm.used
      requires !Translate(mem, 4, root, va).Huge?
      modifies this, pmm
      ensures Grew(old(Frames(mem, 4, root)))
      ensures pt.None? ==> Exhausted()
      ensures pt.Some? ==>
                && Grown(old(mem), mem, 4, root, pmm.used - old(pmm.used))
                && Reaches(mem, 4, root, va, 1) && pt.value == TableFor(mem, 4, root, va, 1)
    {
      hide Tree, Frames, Translate, Kid;
      var pdpt := EnsureKid(root, 4, root, va);
      if pdpt.None? { return None; }
      var pd := EnsureKid(root, 3, pdpt.value, va);
      if pd.None? { return None; }
      pt := EnsureKid(root, 2, pd.value, va);
    }

    /** map_page_in: vaddr is rounded down to its page, the entry takes three bits of flags.
        False is the panic. */
    method MapPageIn(root: nat, vaddr: nat, paddr: nat, flags: nat) returns (ok: bool)
      requires Sane() && Tree(mem, 4, root) && Frames(mem, 4, root) <= pmm.used
      requires vaddr < USER_TOP && !Translate(mem, 4, root, vaddr).Huge?
      requires flags % 2 == 1 ==>
                 && paddr / 4096 in pmm.used && IsPage(mem, paddr / 4096)
                 && paddr / 4096 !in Frames(mem, 4, root) - LeafFrame(Translate(mem, 4, root, vaddr))
      modifies this, pmm
      ensures Grew(old(Frames(mem, 4, root)))
      ensures !ok ==> Exhausted()
      ensures ok ==>
                && Tree(mem, 4, root)
                && Space(mem, root) ==
                   Remapped(old(Space(mem, root)), vaddr / 4096, PageEntry(paddr, flags), old(Translate(mem, 4, root, vaddr)).rights)
                && Frames(mem, 4, root) ==
                   old(Frames(mem, 4, root)) + (pmm.used - old(pmm.used))
                   - LeafFrame(old(Translate(mem, 4, root, vaddr))) + LeafFrame(WalkOf(PageEntry(paddr, flags), FULL))
                && (old(AllOpen(mem, root)) ==> AllOpen(mem, root))
      ensures ok ==> (vaddr / 4096 in Space(mem, root) <==> flags % 2 == 1)
      ensures ok && flags % 2 == 1 ==>
                var w := Space(mem, root)[vaddr / 4096];
                && w.Small? && Carries(w.e, flags) && w.e.frame == paddr / 4096
                && (old(AllOpen(mem, root)) ==> w.rights == FULL)
    {
      hide Tree, Frames, Translate, Kid, Reaches, TableFor, Index;
      var va := vaddr / 4096 * 4096;
      RoundedWalk(mem, root, vaddr);
      UserIndex(va);
      var pt := EnsurePath(root, va);
      if pt.None? { return false; }
      ghost var mid := mem;
      TableForOwned(mem, 4, root, va, 1);
      mem := SetEntry(mem, pt.value, Index(1, va), PageEntry(paddr, flags));
      SetLeaf(mid, 4, root, va, PageEntry(paddr, flags), mem);
      SpaceSet(old(mem), mid, mem, root, va, PageEntry(paddr, flags), pmm.used - old(pmm.used));
      return true;
    }

    /** get_physical_in: the physical address behind va, or 0. */
    method GetPhysicalIn(root: nat, va: nat) returns (pa: nat)
      requires va < USER_TOP && !Translate(mem, 4, root, va).Huge?
      ensures pa == PhysicalOf(Space(mem, root), va)
    {
      InSpace(mem, root, va);
      pa := 0;
      var pml4e := EntryAt(mem, root, Index(4, va));
      if !pml4e.present { return; }
      var pdpte := EntryAt(mem, pml4e.frame, Index(3, va));
      if !pdpte.present { return; }
      var pde := EntryAt(mem, pdpte.frame, Index(2, va));
      if !pde.present { return; }
      var pte := EntryAt(mem, pde.frame, Index(1, va));
      assert Bare(Translate(mem, 4, root, va)) == Bare(Translate(mem, 3, pml4e.frame, va))
          == Bare(Translate(mem, 2, pdpte.frame, va)) == Bare(Translate(mem, 1, pde.frame, va));
      if pte.present {
        pa := pte.frame * 4096 + va % 4096;
      }
    }

    /** The copy loop over entries 256..511: the kernel half is shared by reference. */
    method CopyKernelHalf(from: seq<Entry>, to: nat)
      requires |from| == 512 && IsTable(mem, to)
      modifies this`mem
      ensures mem == old(mem)[to := Table(old(mem)[to].entries[..256] + from[256..])]
    {
      ghost var was := mem[to].entries;
      var i := 256;
      while i < 512
        invariant 256 <= i <= 512
        invariant IsTable(mem, to) && mem == old(mem)[to := mem[to]]
        invariant forall k: nat | k < 256 :: mem[to].entries[k] == was[k]
        invariant forall k: nat | 256 <= k < i :: mem[to].entries[k] == from[k]
      {
        mem := SetEntry(mem, to, i, from[i]);
        i := i + 1;
      }
      assert mem[to].entries == was[..256] + from[256..];
    }

    /** A fresh top-level table with an empty user half and the given kernel half: the first steps
        of both paging_clone_directory and paging_deep_copy_directory. */
    method AllocTop(from: seq<Entry>) returns (root: Option<nat>)
      requires Sane() && |from| == 512
      modifies this, pmm
      ensures Grew({})
      ensures root.None? ==> Exhausted()
      ensures root.Some? ==>
                && 0 < root.value < |mem| && root.value !in old(pmm.used)
                && pmm.used == old(pmm.used) + {root.value}
                && IsTable(mem, root.value) && mem[root.value].entries[..256] == NO_ENTRIES[..256]
                && KernelHalf(mem, root.value) == from[256..]
    {
      root := AllocTable();
      if root.Some? {
        CopyKernelHalf(from, root.value);
      }
    }

    /** paging_clone_directory: an empty user half below the kernel's own mappings. */
    method CloneDirectory() returns (root: Option<nat>)
      requires Sane()
      modifies this, pmm
      ensures Grew({})
      ensures root.None? ==> Exhausted()
      ensures root.Some? ==>
                && 0 < root.value && root.value !in old(pmm.used) && pmm.used == old(pmm.used) + {root.value}
                && Tree(mem, 4, root.value) && Frames(mem, 4, root.value) == {root.value}
                && Space(mem, root.value) == map[] && AllOpen(mem, root.value)
                && KernelHalf(mem, root.value) == kernelPml4[256..]
    {
      hide Tree, Frames, Kid, Translate, Space, KernelHalf;
      root := AllocTop(kernelPml4);
      if root.Some? {
        EmptyDirectory(mem, root.value);
      }
    }

    /** One loop of paging_deep_copy_directory: copies the entries of src into the empty table dst,
        and what hangs below them. False is the panic. */
    method CopyInto(level: nat, src: nat, dst: nat) returns (ok: bool)
      requires Sane() && 1 <= level <= 4 && Copying(mem, pmm.used, level, src, dst, 0)
      modifies this, pmm
      ensures Grew({dst})
      ensures !ok ==> Exhausted()
      ensures ok ==>
                && Copying(mem, pmm.used, level, src, dst, Span(level))
                && Frames(mem, level, dst) == old(Frames(mem, level, dst)) + (pmm.used - old(pmm.used))
                && Frames(mem, level, src) == old(Frames(mem, level, src))
                && (level == 4 ==> KernelHalf(mem, dst) == old(KernelHalf(mem, dst)))
      decreases level, 2
    {
      hide Tree, Frames, Kid, Translate, CopiedUpTo, Copying, KidCopied, EntryAt, KernelHalf;
      var i := 0;
      while i < Span(level)
        invariant 0 <= i <= Span(level) && Grew({dst})
        invariant Copying(mem, pmm.used, level, src, dst, i)
        invariant Frames(mem, level, dst) == old(Frames(mem, level, dst)) + (pmm.used - old(pmm.used))
        invariant Frames(mem, level, src) == old(Frames(mem, level, src))
        invariant level == 4 ==> KernelHalf(mem, dst) == old(KernelHalf(mem, dst))
      {
        ghost var head, used := mem, pmm.used;
        ok := CopyEntry(level, src, dst, i);
        if !ok { return; }
        assert pmm.used == used + Kid(mem, level, dst, i);
        CopyStep(head, mem, used, level, src, dst, i);
        i := i + 1;
      }
      ok := true;
    }

    /** The body of that loop for entry i. */
    method CopyEntry(level: nat, src: nat, dst: nat, i: nat) returns (ok: bool)
      requires Sane() && 1 <= level <= 4 && i < Span(level) && Copying(mem, pmm.used, level, src, dst, i)
      modifies this, pmm
      ensures Grew({dst})
      ensures !ok ==> Exhausted()
      ensures ok ==>
                && KidCopied(old(mem), mem, old(pmm.used), level, src, dst, i)
                && Kid(mem, level, dst, i) == pmm.used - old(pmm.used)
      decreases level, 1
    {
      hide Tree, Frames, Kid, Translate, CopiedUpTo, Copying, KidCopied;
      var e := EntryAt(mem, src, i);
      SrcEntry(mem, pmm.used, level, src, dst, i);
      if !e.present {
        ShareKid(mem, mem, pmm.used, level, src, dst, i);
        return true;
      }
      if level == 2 && e.huge {
        mem := SetEntry(mem, dst, i, e);
        ShareKid(old(mem), mem, pmm.used, level, src, dst, i);
        return true;
      }
      if level == 1 {
        var c := AllocPage();
        if c.None? { return false; }
        mem := mem[c.value := mem[e.frame]];
        mem := SetEntry(mem, dst, i, e.(frame := c.value));
        CopyPage(old(mem), mem, old(pmm.used), src, dst, i, c.value);
        return true;
      }
      ok := CopySubtree(level, src, dst, i);
    }

    /** The branch of the body that allocates a table, links it and copies into it. */
    method CopySubtree(level: nat, src: nat, dst: nat, i: nat) returns (ok: bool)
      requires Sane() && 2 <= level <= 4 && i < Span(level) && Copying(mem, pmm.used, level, src, dst, i)
      requires Owns(level, EntryAt(mem, src, i))
      modifies this, pmm
      ensures Grew({dst})
      ensures !ok ==> Exhausted()
      ensures ok ==>
                && KidCopied(old(mem), mem, old(pmm.used), level, src, dst, i)
                && Kid(mem, level, dst, i) == pmm.used - old(pmm.used)
      decreases level, 0
    {
      hide Tree, Frames, Kid, Translate, CopiedUpTo, KidCopied, Copying;
      var e := EntryAt(mem, src, i);
      SrcEntry(mem, pmm.used, level, src, dst, i);
      var c := LinkTable(level, src, dst, i);
      if c.None? { return false; }
      ok := CopyInto(level - 1, e.frame, c.value);
      assert Grew({dst});
      if ok {
        assert Frames(mem, level - 1, c.value) == pmm.used - old(pmm.used);
        CopyTable(old(mem), mem, old(pmm.used), pmm.used, level, src, dst, i, c.value);
      }
    }

    method LinkTable(level: nat, src: nat, dst: nat, i: nat) returns (c: Option<nat>)
      requires Sane() && 2 <= level <= 4 && i < Span(level) && Copying(mem, pmm.used, level, src, dst, i)
      requires Owns(level, EntryAt(mem, src, i)) && IsTable(mem, dst)
      modifies this, pmm
      ensures Grew({dst})
      ensures c.None? ==> Exhausted()
      ensures c.Some? ==>
                && c.value !in old(pmm.used) && pmm.used == old(pmm.used) + {c.value}
                && mem[dst] == Table(old(mem)[dst].entries[i := EntryAt(old(mem), src, i).(frame := c.value)])
                && Copying(mem, pmm.used, level - 1, EntryAt(old(mem), src, i).frame, c.value, 0)
                && Frames(mem, level - 1, c.value) == {c.value}
    {
      hide Tree, Frames, Kid, Translate, CopiedUpTo, KidCopied, Copying;
      var e := EntryAt(mem, src, i);
      SrcEntry(mem, pmm.used, level, src, dst, i);
      c := AllocTable();
      if c.Some? {
        mem := SetEntry(mem, dst, i, e.(frame := c.value));
        assert Grew({dst});
        BeginCopy(old(mem), mem, old(pmm.used), level - 1, e.frame, c.value, dst);
      }
    }

    /** paging_deep_copy_directory: None is the panic. */
    method DeepCopyDirectory(src: nat) returns (dst: Option<nat>)
      requires Sane() && Tree(mem, 4, src) && Frames(mem, 4, src) <= pmm.used
      modifies this, pmm
      ensures Grew({})
      ensures dst.None? ==> Exhausted()
      ensures dst.Some? ==>
                && Tree(mem, 4, dst.value) && Frames(mem, 4, dst.value) == pmm.used - old(pmm.used)
                && dst.value in Frames(mem, 4, dst.value)
                && View(mem, dst.value) == old(View(mem, src))
                && (old(AllOpen(mem, src)) ==> AllOpen(mem, dst.value))
                && KernelHalf(mem, dst.value) == old(KernelHalf(mem, src))
    {
      hide Tree, Frames, Kid, Translate, CopiedUpTo, View, Copying, KernelHalf;
      DirectoryTable(mem, src);
      dst := AllocTop(mem[src].entries);
      if dst.None? { return; }
      BeginCopy(old(mem), mem, old(pmm.used), 4, src, dst.value, dst.value);
      var ok := CopyInto(4, src, dst.value);
      assert Grew({});
      if !ok { return None; }
      assert Frames(mem, 4, dst.value) == pmm.used - old(pmm.used);
      CopyShows(mem, pmm.used, src, dst.value);
      Isolated(old(mem), mem, src);
      DirectoryTable(mem, dst.value);
    }

    /** The body of one loop of paging_free_directory: frees what entry i of table t owns. */
    method FreeEntry(level: nat, t: nat, i: nat)
      requires Sane() && 1 <= level <= 4 && i < Span(level) && Tree(mem, level, t)
      requires Kid(mem, level, t, i) <= pmm.used - {0}
      modifies pmm
      ensures Sane() && pmm.used == old(pmm.used) - Kid(mem, level, t, i)
      ensures pmm.Drift() == old(pmm.Drift())
      decreases level, 0
    {
      hide Tree, Frames, Kid, KidsUpTo;
      KidShape(mem, level, t, i);
      var e := EntryAt(mem, t, i);
      if e.present && !(level == 2 && e.huge) {
        if level > 1 {
          FreeBelow(level - 1, e.frame);
        }
        pmm.Free(e.frame);
      }
    }

    /** One loop of paging_free_directory: frees everything below table t. */
    method FreeBelow(level: nat, t: nat)
      requires Sane() && 1 <= level <= 4 && Tree(mem, level, t)
      requires Frames(mem, level, t) <= pmm.used - {0}
      modifies pmm
      ensures Sane() && pmm.used == old(pmm.used) - (Frames(mem, level, t) - {t})
      ensures pmm.Drift() == old(pmm.Drift())
      decreases level, 1
    {
      hide Tree, Frames, Kid, KidsUpTo;
      AllKids(mem, level, t);
      var i := 0;
      while i < Span(level)
        invariant 0 <= i <= Span(level) && Sane()
        invariant pmm.used == old(pmm.used) - KidsUpTo(mem, level, t, i)
        invariant pmm.Drift() == old(pmm.Drift())
      {
        NextKid(mem, level, t, i);
        FreeEntry(level, t, i);
        i := i + 1;
      }
    }

    /** paging_free_directory: every owned frame is released, once, and no other. */
    method FreeDirectory(root: nat)
      requires Sane() && Tree(mem, 4, root) && Frames(mem, 4, root) <= pmm.used - {0}
      modifies pmm
      ensures Sane() && pmm.used == old(pmm.used) - Frames(mem, 4, root)
      ensures pmm.Drift() == old(pmm.Drift())
    {
      hide Tree, Frames, Kid;
      DirectoryTable(mem, root);
      FreeBelow(4, root);
      pmm.Free(root);
    }

    /** pmm_alloc followed by map_page_in. A page that was mapped there is lost, not released. */
    method MapFresh(root: nat, va: nat, flags: nat) returns (page: Option<nat>)
      requires Sane() && Tree(mem, 4, root) && Frames(mem, 4, root) <= pmm.used
      requires va < USER_TOP && !Translate(mem, 4, root, va).Huge? && flags % 2 == 1
      modifies this, pmm
      ensures Grew(old(Frames(mem, 4, root)))
      ensures page.None? ==> Exhausted()
      ensures page.Some? ==>
                && Tree(mem, 4, root)
                && Frames(mem, 4, root) ==
                   old(Frames(mem, 4, root)) + (pmm.used - old(pmm.used)) - LeafFrame(old(Translate(mem, 4, root, va)))
                && page.value in pmm.used - old(pmm.used) && IsPage(mem, page.value)
                && Space(mem, root) ==
                   old(Space(mem, root))[va / 4096 := Small(PageEntry(page.value * 4096, flags), old(Translate(mem, 4, root, va)).rights)]
                && (old(AllOpen(mem, root)) ==> AllOpen(mem, root))
    {
      hide Tree, Frames, Translate, Index, Space;
      InSpace(mem, root, va);
      page := AllocPage();
      if page.None? { return; }
      Isolated(old(mem), mem, root);
      InSpace(mem, root, va);
      ghost var mid, used := mem, pmm.used;
      UserIndex(va);
      LeafOwned(mem, 4, root, va);
      ghost var leaf := LeafFrame(Translate(mem, 4, root, va));
      assert Translate(mem, 4, root, va) == Translate(old(mem), 4, root, va);
      var ok := MapPageIn(root, va, page.value * 4096, flags);
      assert Grew(old(Frames(mem, 4, root)));
      if !ok { return None; }
      assert mem[page.value] == mid[page.value];
      FreshPage(old(Frames(mem, 4, root)), old(pmm.used), pmm.used, leaf, page.value);
    }

    /** The body of the page loops of elf_load and sys_heap_grow: a new page, mapped at va, zeroed. */
    method MapZeroed(root: nat, va: nat, flags: nat) returns (ok: bool)
      requires Sane() && Tree(mem, 4, root) && Frames(mem, 4, root) <= pmm.used - {0}
      requires va < USER_TOP && !Translate(mem, 4, root, va).Huge? && flags % 2 == 1
      modifies this, pmm
      ensures Grew(old(Frames(mem, 4, root)))
      ensures !ok ==> Exhausted()
      ensures ok ==>
                && Tree(mem, 4, root)
                && Frames(mem, 4, root) ==
                   old(Frames(mem, 4, root)) + (pmm.used - old(pmm.used)) - LeafFrame(old(Translate(mem, 4, root, va)))
                && 0 !in Frames(mem, 4, root)
                && View(mem, root) ==
                   old(View(mem, root))[va / 4096 := PageView(Limited(PageEntry(0, flags), old(Translate(mem, 4, root, va)).rights), Page(ZEROS))]
                && (old(AllOpen(mem, root)) ==> AllOpen(mem, root))
    {
      hide Tree, Frames, Translate, View, Index, Space;
      var page := MapFresh(root, va, flags);
      if page.None? { return false; }
      ghost var mapped := mem;
      InSpace(mem, root, va);
      mem := mem[page.value := Page(ZEROS)];
      PageChanged(mapped, root, va, Page(ZEROS), mem);
      assert Grew(old(Frames(mem, 4, root)));
      ViewRemapped(old(mem), mem, root, va / 4096, PageEntry(page.value * 4096, flags), old(Translate(mem, 4, root, va)).rights);
      return true;
    }

    /** A store of one byte through the directory. */
    method StoreByte(root: nat, va: nat, b: Byte)
      requires Sane() && Tree(mem, 4, root) && Frames(mem, 4, root) <= pmm.used
      requires va < USER_TOP && Translate(mem, 4, root, va).Small?
      modifies this
      ensures Sane() && Tree(mem, 4, root) && Frames(mem, 4, root) == old(Frames(mem, 4, root))
      ensures Space(mem, root) == old(Space(mem, root))
      ensures forall f | f in pmm.used && f !in Frames(mem, 4, root) :: mem[f] == old(mem)[f]
      ensures View(mem, root) == Stored(old(View(mem, root)), va, b)
      ensures old(AllOpen(mem, root)) ==> AllOpen(mem, root)
    {
      hide Tree, Frames, Translate, View, Index;
      UserIndex(va);
      LeafOwned(mem, 4, root, va);
      InSpace(mem, root, va);
      var f := Translate(mem, 4, root, va).e.frame;
      var fr := Page(mem[f].bytes[va % 4096 := b]);
      mem := mem[f := fr];
      PageChanged(old(mem), root, va, fr, mem);
    }
  }
}
