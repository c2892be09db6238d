/** User memory byte by byte: what the kernel writes into a process through its page directory. */
module UserMemory {
  import opened Wrappers
  import opened Words
  import opened PageTables
  import opened Paging

  type Pages = map<nat, PageView>

  /** The byte a process reads at va, if the page is mapped. */
  function ByteAt(view: Pages, va: nat): Option<Byte> {
    var p := va / 4096;
    if p in view && view[p].content.Page? && |view[p].content.bytes| == PAGE_SIZE
    then Some(view[p].content.bytes[va % 4096]) else None
  }

  /** The entry bits of the page at va, if it is mapped. */
  function FlagsAt(view: Pages, va: nat): Option<Entry> {
    if va / 4096 in view then Some(view[va / 4096].entry) else None
  }

  /** A user program may write at va: effectively present, writable and user. */
  predicate Usable(view: Pages, va: nat) {
    && va / 4096 in view && view[va / 4096].entry.present && view[va / 4096].entry.writable && view[va / 4096].entry.user
  }

  /** User directories hold 4KB pages only. */
  ghost predicate Plain(view: Pages) {
    forall p | p in view :: view[p].content.Page? && |view[p].content.bytes| == PAGE_SIZE
  }

  /** Exactly the bytes from lo on have changed, to the given ones. */
  ghost predicate Patched(view: Pages, view': Pages, lo: nat, bytes: seq<Byte>) {
    forall q: nat :: ByteAt(view', q) == if lo <= q < lo + |bytes| then Some(bytes[q - lo]) else ByteAt(view, q)
  }

  /** The same pages are mapped with the same entry bits. */
  ghost predicate SameFlags(view: Pages, view': Pages) {
    forall q: nat :: FlagsAt(view', q) == FlagsAt(view, q)
  }

  /** Exactly the pages from lo to hi are mapped anew, with entry bits e. */
  ghost predicate Flagged(view: Pages, view': Pages, lo: nat, hi: nat, e: Entry) {
    forall q: nat :: FlagsAt(view', q) == if lo <= q < hi then Some(e) else FlagsAt(view, q)
  }

  lemma PatchUp(v0: Pages, v1: Pages, v2: Pages, lo: nat, a: seq<Byte>, b: seq<Byte>)
    requires Patched(v0, v1, lo, a) && Patched(v1, v2, lo + |a|, b)
    ensures Patched(v0, v2, lo, a + b)
  {
    hide ByteAt;
  }

  lemma PatchDown(v0: Pages, v1: Pages, v2: Pages, lo: nat, a: seq<Byte>, b: seq<Byte>)
    requires |b| <= lo && Patched(v0, v1, lo, a) && Patched(v1, v2, lo - |b|, b)
    ensures Patched(v0, v2, lo - |b|, b + a)
  {
    hide ByteAt;
  }

  lemma PatchNothing(v: Pages, lo: nat)
    ensures Patched(v, v, lo, []) && SameFlags(v, v)
  {
  }

  function Zeros(n: nat): (s: seq<Byte>)
    ensures |s| == n && forall i | 0 <= i < n :: s[i] == 0
  {
    seq(n, _ => 0)
  }

  /** A one-byte store changes that byte and no other. */
  lemma StoredByte(view: Pages, va: nat, b: Byte, q: nat)
    requires Plain(view) && va / 4096 in view
    ensures ByteAt(Stored(view, va, b), q) == if q == va then Some(b) else ByteAt(view, q)
    ensures FlagsAt(Stored(view, va, b), q) == FlagsAt(view, q)
  {
    if q / 4096 == va / 4096 { SamePage(va, q, 0); }
  }

  /** Page p replaced by a page of zeros. */
  lemma PageZeroed(view: Pages, p: nat, e: Entry)
    ensures var view' := view[p := PageView(e, Page(ZEROS))];
            && Patched(view, view', p * 4096, Zeros(PAGE_SIZE))
            && Flagged(view, view', p * 4096, p * 4096 + PAGE_SIZE, e)
            && (Plain(view) ==> Plain(view'))
  {
    var view' := view[p := PageView(e, Page(ZEROS))];
    forall q: nat ensures (p * 4096 <= q < p * 4096 + 4096) == (q / 4096 == p) {
    }
  }

  /** Part of a page replaced. */
  function Overlaid(page: seq<Byte>, at: nat, bytes: seq<Byte>): (r: seq<Byte>)
    requires at + |bytes| <= |page|
    ensures |r| == |page|
    ensures forall i | 0 <= i < |page| :: r[i] == if at <= i < at + |bytes| then bytes[i - at] else page[i]
  {
    page[..at] + bytes + page[at + |bytes|..]
  }

  lemma SamePage(va: nat, q: nat, n: nat)
    requires va % 4096 + n <= 4096
    ensures q / 4096 == va / 4096 ==> q - va == q % 4096 - va % 4096
    ensures va <= q < va + n ==> q / 4096 == va / 4096
  {
  }

  lemma PageWritten(view: Pages, va: nat, bytes: seq<Byte>)
    requires Plain(view) && va / 4096 in view && va % 4096 + |bytes| <= 4096
    ensures var p := va / 4096;
            var view' := view[p := view[p].(content := Page(Overlaid(view[p].content.bytes, va % 4096, bytes)))];
            Patched(view, view', va, bytes) && SameFlags(view, view') && Plain(view')
  {
    hide Overlaid;
    var p := va / 4096;
    var view' := view[p := view[p].(content := Page(Overlaid(view[p].content.bytes, va % 4096, bytes)))];
    forall q: nat
      ensures ByteAt(view', q) == if va <= q < va + |bytes| then Some(bytes[q - va]) else ByteAt(view, q)
    {
      SamePage(va, q, |bytes|);
    }
  }

  // ---- through the machine -------------------------------------------------

  /** The directory is a tree of used frames that maps 4KB pages only. */
  ghost predicate Ready(m: Machine, root: nat)
    reads m, m.pmm
  {
    && m.Sane() && Tree(m.mem, 4, root) && Frames(m.mem, 4, root) <= m.pmm.used - {0}
    && Plain(View(m.mem, root)) && AllOpen(m.mem, root)
  }

  /** Only this directory, and frames that were free, have changed. */
  twostate predicate Apart(m: Machine, root: nat)
    reads m, m.pmm
  {
    && |m.mem| == |old(m.mem)| && old(m.pmm.used) <= m.pmm.used && m.pmm.Drift() == old(m.pmm.Drift())
    && Frames(m.mem, 4, root) <= old(Frames(m.mem, 4, root)) + (m.pmm.used - old(m.pmm.used))
    && forall f | f in old(m.pmm.used) && f < |m.mem| && f !in old(Frames(m.mem, 4, root)) :: m.mem[f] == old(m.mem)[f]
  }

  /** No frame of the directory was lost and none is unaccounted for. */
  twostate predicate Exact(m: Machine, root: nat)
    reads m, m.pmm
  {
    Frames(m.mem, 4, root) == old(Frames(m.mem, 4, root)) + (m.pmm.used - old(m.pmm.used))
  }

  lemma PlainWalk(mem: Memory, root: nat, va: nat)
    requires va < USER_TOP && Plain(View(mem, root))
    ensures !Translate(mem, 4, root, va).Huge?
    ensures va / 4096 in View(mem, root) <==> Translate(mem, 4, root, va).Small?
  {
    hide Translate;
    InSpace(mem, root, va);
    var p := va / 4096;
    if p in Space(mem, root) {
      assert View(mem, root)[p] == Look(mem, Space(mem, root)[p]);
    }
  }

  /** Writing into one page through the kernel's direct map, at the address get_physical_in gives. */
  method WritePage(m: Machine, root: nat, va: nat, bytes: seq<Byte>)
    requires Ready(m, root) && va < USER_TOP && va / 4096 in View(m.mem, root) && va % 4096 + |bytes| <= 4096
    modifies m`mem
    ensures Ready(m, root) && Apart(m, root) && Exact(m, root)
    ensures Patched(old(View(m.mem, root)), View(m.mem, root), va, bytes)
    ensures SameFlags(old(View(m.mem, root)), View(m.mem, root))
  {
    hide Tree, Frames, Translate, View, Patched, Index, Space, SameFlags, Plain;
    PlainWalk(m.mem, root, va);
    UserIndex(va);
    LeafOwned(m.mem, 4, root, va);
    InSpace(m.mem, root, va);
    var pa := m.GetPhysicalIn(root, va);
    assert pa / 4096 == Translate(m.mem, 4, root, va).e.frame && pa % 4096 == va % 4096;
    ghost var view := View(m.mem, root);
    var page := Page(Overlaid(m.mem[pa / 4096].bytes, pa % 4096, bytes));
    m.mem := m.mem[pa / 4096 := page];
    PageChanged(old(m.mem), root, va, page, m.mem);
    PageWritten(view, va, bytes);
  }

  lemma FlagsUp(v0: Pages, v1: Pages, v2: Pages, lo: nat, mid: nat, hi: nat, e: Entry)
    requires lo <= mid <= hi && Flagged(v0, v1, lo, mid, e) && Flagged(v1, v2, mid, hi, e)
    ensures Flagged(v0, v2, lo, hi, e)
  {
    hide FlagsAt;
  }

  lemma FlagsKept(v0: Pages, v1: Pages, v2: Pages)
    requires SameFlags(v0, v1) && SameFlags(v1, v2)
    ensures SameFlags(v0, v2)
  {
    hide FlagsAt;
  }

  lemma ZerosUp(a: nat, b: nat)
    ensures Zeros(a) + Zeros(b) == Zeros(a + b)
  {
  }

  /** No page from lo to hi is mapped. */
  ghost predicate Clear(view: Pages, lo: nat, hi: nat) {
    forall q: nat | lo <= q < hi :: FlagsAt(view, q).None?
  }

  /** After the pages below va were mapped: the range up to the next page was clear if the range up to
      va was and the page at va still is. */
  lemma ClearNext(v0: Pages, v1: Pages, lo: nat, va: nat, e: Entry)
    requires lo <= va && va % 4096 == 0 && Flagged(v0, v1, lo, va, e)
    ensures Clear(v0, lo, va + PAGE_SIZE) <==> Clear(v0, lo, va) && FlagsAt(v1, va).None?
  {
    assert FlagsAt(v1, va) == FlagsAt(v0, va);
    forall q: nat | va <= q < va + PAGE_SIZE ensures FlagsAt(v0, q) == FlagsAt(v0, va) {
      assert q / 4096 == va / 4096;
    }
  }

  /** Accounting over two stretches: a frame lost in either is never regained. */
  lemma ExactTwice(f0: set<nat>, u0: set<nat>, f1: set<nat>, u1: set<nat>, f2: set<nat>, u2: set<nat>)
    requires f0 <= u0 <= u1 <= u2 && f1 <= f0 + (u1 - u0) && f2 <= f1 + (u2 - u1)
    ensures f2 == f0 + (u2 - u0) <==> f1 == f0 + (u1 - u0) && f2 == f1 + (u2 - u1)
  {
    if f1 != f0 + (u1 - u0) {
      var f :| f in f0 + (u1 - u0) && f !in f1;
      assert f in f0 + (u2 - u0) && f !in f2;
    } else {
      assert f1 + (u2 - u1) == f0 + (u2 - u0);
    }
  }

  /** One turn of the page loops: a fresh zeroed page at va, which may replace another. */
  method MapZeroPage(m: Machine, root: nat, va: nat, flags: nat) returns (ok: bool)
    requires Ready(m, root) && va < USER_TOP && va % 4096 == 0 && flags % 2 == 1
    modifies m, m.pmm
    ensures !ok ==> m.Sane() && m.Exhausted()
    ensures ok ==> Ready(m, root) && Apart(m, root)
    ensures ok ==> (Exact(m, root) <==> FlagsAt(old(View(m.mem, root)), va).None?)
    ensures ok ==> Patched(old(View(m.mem, root)), View(m.mem, root), va, Zeros(PAGE_SIZE))
    ensures ok ==> Flagged(old(View(m.mem, root)), View(m.mem, root), va, va + PAGE_SIZE, PageEntry(0, flags))
  {
    hide Tree, Frames, Translate, View, Patched, Flagged, Index, Space, Plain;
    PlainWalk(m.mem, root, va);
    UserIndex(va);
    LeafOwned(m.mem, 4, root, va);
    ghost var view, leaf := View(m.mem, root), LeafFrame(Translate(m.mem, 4, root, va));
    ok := m.MapZeroed(root, va, flags);
    if ok {
      assert va / 4096 * 4096 == va;
      PageZeroed(view, va / 4096, PageEntry(0, flags));
      LostLeaf(old(Frames(m.mem, 4, root)), old(m.pmm.used), m.pmm.used, leaf);
    }
  }

  /** Taking owned frames away leaves the accounting exact only if there are none. */
  lemma LostLeaf(frames: set<nat>, used: set<nat>, used': set<nat>, leaf: set<nat>)
    requires frames <= used <= used' && leaf <= frames
    ensures frames + (used' - used) - leaf == frames + (used' - used) <==> leaf == {}
  {
    if f :| f in leaf { assert f in frames + (used' - used); }
  }

  /** The page loops of elf_load and sys_heap_grow: zeroed pages from lo to hi. */
  method MapZeroPages(m: Machine, root: nat, lo: nat, hi: nat, flags: nat) returns (ok: bool)
    requires Ready(m, root) && lo % 4096 == 0 && hi % 4096 == 0 && lo <= hi <= USER_TOP && flags % 2 == 1
    modifies m, m.pmm
    ensures !ok ==> m.Sane() && m.Exhausted()
    ensures ok ==> Ready(m, root) && Apart(m, root)
    ensures ok ==> (Exact(m, root) <==> Clear(old(View(m.mem, root)), lo, hi))
    ensures ok ==> Patched(old(View(m.mem, root)), View(m.mem, root), lo, Zeros(hi - lo))
    ensures ok ==> Flagged(old(View(m.mem, root)), View(m.mem, root), lo, hi, PageEntry(0, flags))
  {
    hide Tree, Frames, View, Patched, Flagged, Plain, Clear, FlagsAt;
    ghost var view := View(m.mem, root);
    var va := lo;
    MapNothing(view, lo, PageEntry(0, flags));
    while va < hi
      invariant lo <= va <= hi && va % 4096 == 0
      invariant Ready(m, root) && Apart(m, root)
      invariant Exact(m, root) <==> Clear(view, lo, va)
      invariant Patched(view, View(m.mem, root), lo, Zeros(va - lo))
      invariant Flagged(view, View(m.mem, root), lo, va, PageEntry(0, flags))
    {
      ghost var mid, frames, used := View(m.mem, root), Frames(m.mem, 4, root), m.pmm.used;
      ClearNext(view, mid, lo, va, PageEntry(0, flags));
      ok := MapZeroPage(m, root, va, flags);
      if !ok { return; }
      ExactTwice(old(Frames(m.mem, 4, root)), old(m.pmm.used), frames, used, Frames(m.mem, 4, root), m.pmm.used);
      PatchUp(view, mid, View(m.mem, root), lo, Zeros(va - lo), Zeros(PAGE_SIZE));
      ZerosUp(va - lo, PAGE_SIZE);
      FlagsUp(view, mid, View(m.mem, root), lo, va, va + PAGE_SIZE, PageEntry(0, flags));
      va := va + PAGE_SIZE;
    }
    ok := true;
  }

  lemma MapNothing(v: Pages, lo: nat, e: Entry)
    ensures Patched(v, v, lo, Zeros(0)) && Flagged(v, v, lo, lo, e) && Clear(v, lo, lo)
  {
  }

  /** Every page from lo to hi is mapped. */
  ghost predicate Covered(view: Pages, lo: nat, hi: nat) {
    forall q: nat | lo <= q < hi :: FlagsAt(view, q).Some?
  }

  lemma StillCovered(v: Pages, v': Pages, lo: nat, hi: nat)
    requires Covered(v, lo, hi) && SameFlags(v, v')
    ensures Covered(v', lo, hi)
  {
    hide FlagsAt;
  }

  lemma CoveredHere(v: Pages, lo: nat, va: nat, hi: nat)
    requires lo <= va < hi && Covered(v, lo, hi)
    ensures va / 4096 in v
  {
    assert FlagsAt(v, va).Some?;
  }

  /** The copy and zero loops of elf_load: page by page, whatever the offset in the first page. */
  method WriteBytes(m: Machine, root: nat, va: nat, bytes: seq<Byte>)
    requires Ready(m, root) && va + |bytes| <= USER_TOP && Covered(View(m.mem, root), va, va + |bytes|)
    modifies m`mem
    ensures Ready(m, root) && Apart(m, root) && Exact(m, root)
    ensures Patched(old(View(m.mem, root)), View(m.mem, root), va, bytes)
    ensures SameFlags(old(View(m.mem, root)), View(m.mem, root))
  {
    hide Tree, Frames, View, Patched, SameFlags, Plain, Covered;
    ghost var view := View(m.mem, root);
    var done: nat := 0;
    PatchNothing(view, va);
    assert bytes[..0] == [];
    while done < |bytes|
      invariant done <= |bytes|
      invariant Ready(m, root) && Apart(m, root) && Exact(m, root)
      invariant Patched(view, View(m.mem, root), va, bytes[..done])
      invariant SameFlags(view, View(m.mem, root))
    {
      var remaining := |bytes| - done;
      var at := va + done;
      var chunk := PAGE_SIZE - at % 4096;
      if chunk > remaining { chunk := remaining; }
      ghost var mid := View(m.mem, root);
      StillCovered(view, mid, va, va + |bytes|);
      CoveredHere(mid, va, at, va + |bytes|);
      WritePage(m, root, at, bytes[done..done + chunk]);
      PatchUp(view, mid, View(m.mem, root), va, bytes[..done], bytes[done..done + chunk]);
      assert bytes[..done] + bytes[done..done + chunk] == bytes[..done + chunk];
      FlagsKept(view, mid, View(m.mem, root));
      done := done + chunk;
    }
    assert bytes[..done] == bytes;
  }
}
