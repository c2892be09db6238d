/** Building a process image (kernel/core/elf.c) and growing its heap (kernel/processes/syscall.c). */
module Elf {
  import opened Wrappers
  import opened Words
  import opened PageTables
  import opened Paging
  import opened UserMemory

  /** A decoded program header: whether it is PT_LOAD, whether PF_W is set, and its four numbers. */
  datatype Segment = Segment(load: bool, writable: bool, vaddr: nat, offset: nat, filesz: nat, memsz: nat)

  function Down(va: nat): nat {
    va / 4096 * 4096
  }

  function Up(va: nat): nat {
    (va + 4095) / 4096 * 4096
  }

  lemma Rounding(va: nat)
    ensures Down(va) % 4096 == 0 && Up(va) % 4096 == 0
    ensures Down(va) <= va <= Up(va) < va + 4096 && va < Down(va) + 4096
    ensures va <= USER_TOP ==> Up(va) <= USER_TOP
    ensures va % 4096 == 0 ==> Down(va) == va == Up(va)
  {
  }

  lemma UpMonotone(a: nat, b: nat)
    requires a <= b
    ensures Up(a) <= Up(b)
  {
  }

  function Base(s: Segment): nat { Down(s.vaddr) }
  function End(s: Segment): nat { Up(s.vaddr + s.memsz) }

  /** PAGE_PRESENT and PAGE_USER, and PAGE_WRITABLE for PF_W. */
  function SegmentFlags(s: Segment): nat {
    if s.writable then 7 else 5
  }

  /** The file holds the segment's data, which fits its memory, which lies in the user half. */
  predicate Loadable(s: Segment, file: seq<Byte>) {
    s.load ==> s.filesz <= s.memsz && s.offset + s.filesz <= |file| && s.vaddr + s.memsz <= USER_TOP
  }

  /** The pages of a segment. */
  predicate Covers(s: Segment, q: nat) {
    s.load && Base(s) <= q < End(s)
  }

  /** The byte of a segment's page at q: the file's where there is one, zero elsewhere. */
  function SegmentByte(s: Segment, file: seq<Byte>, q: nat): Byte {
    if s.vaddr <= q < s.vaddr + s.filesz && s.offset + (q - s.vaddr) < |file| then file[s.offset + (q - s.vaddr)] else 0
  }

  /** Exactly the pages of the segment have changed, to its bytes and its permissions. */
  ghost predicate Loaded(view: Pages, view': Pages, s: Segment, file: seq<Byte>) {
    && (forall q: nat :: ByteAt(view', q) == if Covers(s, q) then Some(SegmentByte(s, file, q)) else ByteAt(view, q))
    && (forall q: nat :: FlagsAt(view', q) == if Covers(s, q) then Some(PageEntry(0, SegmentFlags(s))) else FlagsAt(view, q))
  }

  lemma LoadedBy(v0: Pages, v1: Pages, v2: Pages, v3: Pages, s: Segment, file: seq<Byte>)
    requires s.load && Loadable(s, file)
    requires Base(s) <= s.vaddr && s.vaddr + s.memsz <= End(s)
    requires Patched(v0, v1, Base(s), Zeros(End(s) - Base(s))) && Flagged(v0, v1, Base(s), End(s), PageEntry(0, SegmentFlags(s)))
    requires Patched(v1, v2, s.vaddr, file[s.offset..s.offset + s.filesz]) && SameFlags(v1, v2)
    requires Patched(v2, v3, s.vaddr + s.filesz, Zeros(s.memsz - s.filesz)) && SameFlags(v2, v3)
    ensures Loaded(v0, v3, s, file)
  {
    hide ByteAt, FlagsAt, Base, End, Zeros;
  }

  lemma CoveredAfter(v0: Pages, v1: Pages, lo: nat, hi: nat, e: Entry, a: nat, b: nat)
    requires Flagged(v0, v1, lo, hi, e) && lo <= a <= b <= hi
    ensures Covered(v1, a, b)
  {
    hide FlagsAt;
  }

  /** The body of the program header loop for a PT_LOAD segment. */
  method LoadSegment(m: Machine, root: nat, s: Segment, file: seq<Byte>) returns (ok: bool)
    requires Ready(m, root) && s.load && Loadable(s, file)
    modifies m, m.pmm
    ensures !ok ==> m.Sane() && m.Exhausted()
    ensures ok ==> Ready(m, root) && Apart(m, root)
    ensures ok ==> (Exact(m, root) <==> Clear(old(View(m.mem, root)), Base(s), End(s)))
    ensures ok ==> Loaded(old(View(m.mem, root)), View(m.mem, root), s, file)
  {
    hide Tree, Frames, View, Patched, SameFlags, Flagged, Covered, Plain, Clear, Up, Down;
    Rounding(s.vaddr);
    Rounding(s.vaddr + s.memsz);
    ghost var v0 := View(m.mem, root);
    ok := MapZeroPages(m, root, Base(s), End(s), SegmentFlags(s));
    if !ok { return; }
    ghost var v1 := View(m.mem, root);
    CoveredAfter(v0, v1, Base(s), End(s), PageEntry(0, SegmentFlags(s)), s.vaddr, s.vaddr + s.filesz);
    WriteBytes(m, root, s.vaddr, file[s.offset..s.offset + s.filesz]);
    ghost var v2 := View(m.mem, root);
    CoveredAfter(v0, v1, Base(s), End(s), PageEntry(0, SegmentFlags(s)), s.vaddr + s.filesz, s.vaddr + s.memsz);
    StillCovered(v1, v2, s.vaddr + s.filesz, s.vaddr + s.memsz);
    WriteBytes(m, root, s.vaddr + s.filesz, Zeros(s.memsz - s.filesz));
    LoadedBy(v0, v1, v2, View(m.mem, root), s, file);
  }

  // ---- the whole image -----------------------------------------------------

  /** The byte at q once the segments are loaded in order: the last one that covers q decides. */
  function ImageByte(segments: seq<Segment>, file: seq<Byte>, q: nat, before: Option<Byte>): Option<Byte> {
    if segments == [] then before
    else
      var n := |segments| - 1;
      if Covers(segments[n], q) then Some(SegmentByte(segments[n], file, q))
      else ImageByte(segments[..n], file, q, before)
  }

  function ImageFlags(segments: seq<Segment>, q: nat, before: Option<Entry>): Option<Entry> {
    if segments == [] then before
    else
      var n := |segments| - 1;
      if Covers(segments[n], q) then Some(PageEntry(0, SegmentFlags(segments[n])))
      else ImageFlags(segments[..n], q, before)
  }

  ghost predicate Imaged(view: Pages, view': Pages, segments: seq<Segment>, file: seq<Byte>) {
    && (forall q: nat :: ByteAt(view', q) == ImageByte(segments, file, q, ByteAt(view, q)))
    && (forall q: nat :: FlagsAt(view', q) == ImageFlags(segments, q, FlagsAt(view, q)))
  }

  /** Where the heap starts: the end of the highest loaded segment. */
  function HeapStart(segments: seq<Segment>): (h: nat)
    ensures h % 4096 == 0
    ensures forall i | 0 <= i < |segments| && segments[i].load :: End(segments[i]) <= h
    ensures h == 0 || exists i :: 0 <= i < |segments| && segments[i].load && End(segments[i]) == h
  {
    if segments == [] then 0
    else
      var n := |segments| - 1;
      var h := HeapStart(segments[..n]);
      assert forall i | 0 <= i < n :: segments[..n][i] == segments[i];
      Rounding(segments[n].vaddr + segments[n].memsz);
      if segments[n].load && End(segments[n]) > h then End(segments[n]) else h
  }

  /** No two loaded segments share a page. */
  predicate PageDisjoint(segments: seq<Segment>) {
    forall i, j | 0 <= i < j < |segments| && segments[i].load && segments[j].load ::
      End(segments[i]) <= Base(segments[j]) || End(segments[j]) <= Base(segments[i])
  }

  /** The page at q was not mapped before segment i was loaded. */
  predicate FreshFor(view: Pages, segments: seq<Segment>, i: nat, q: nat)
    requires i <= |segments|
  {
    FlagsAt(view, q).None? && forall j | 0 <= j < i :: !Covers(segments[j], q)
  }

  /** No page of a segment was mapped before, and none is covered by two segments. */
  ghost predicate FreshPages(view: Pages, segments: seq<Segment>) {
    forall i: nat, q: nat | i < |segments| && Covers(segments[i], q) :: FreshFor(view, segments, i, q)
  }

  /** Page-disjoint segments over unmapped pages are fresh. */
  lemma DisjointFresh(view: Pages, segments: seq<Segment>)
    requires PageDisjoint(segments)
    requires forall i: nat, q: nat | i < |segments| && Covers(segments[i], q) :: FlagsAt(view, q).None?
    ensures FreshPages(view, segments)
  {
    hide FlagsAt, Base, End;
  }

  lemma ImageStep(v0: Pages, v1: Pages, v2: Pages, segments: seq<Segment>, k: nat, file: seq<Byte>)
    requires k < |segments| && Imaged(v0, v1, segments[..k], file)
    requires if segments[k].load then Loaded(v1, v2, segments[k], file) else v2 == v1
    ensures Imaged(v0, v2, segments[..k + 1], file)
  {
    hide ByteAt, FlagsAt;
    assert segments[..k + 1][..k] == segments[..k];
  }

  lemma {:induction false} ImageElsewhere(segments: seq<Segment>, q: nat, before: Option<Entry>)
    requires forall i | 0 <= i < |segments| :: !Covers(segments[i], q)
    ensures ImageFlags(segments, q, before) == before
  {
    if segments != [] { ImageElsewhere(segments[..|segments| - 1], q, before); }
  }

  lemma {:induction false} ImageSomewhere(segments: seq<Segment>, q: nat, before: Option<Entry>)
    ensures ImageFlags(segments, q, before).None? <==>
            before.None? && forall i | 0 <= i < |segments| :: !Covers(segments[i], q)
  {
    hide Covers;
    if segments != [] {
      var n := |segments| - 1;
      ImageSomewhere(segments[..n], q, before);
      if Covers(segments[n], q) { assert !(forall i | 0 <= i < |segments| :: !Covers(segments[i], q)); }
    }
  }

  lemma FreshPrefix(view: Pages, segments: seq<Segment>, k: nat, i: nat, q: nat)
    requires i <= k <= |segments|
    ensures FreshFor(view, segments[..k], i, q) <==> FreshFor(view, segments, i, q)
  {
    hide FlagsAt, Covers;
    assert forall j | 0 <= j < i :: segments[..k][j] == segments[j];
  }

  /** A page is fresh for the next segment exactly when it is not mapped by then. */
  lemma FreshUnmapped(v0: Pages, v1: Pages, segments: seq<Segment>, k: nat, file: seq<Byte>, q: nat)
    requires k <= |segments| && Imaged(v0, v1, segments[..k], file)
    ensures FlagsAt(v1, q).None? <==> FreshFor(v0, segments, k, q)
  {
    hide ByteAt, FlagsAt, ImageByte, ImageFlags, Covers;
    ImageSomewhere(segments[..k], q, FlagsAt(v0, q));
    assert forall j | 0 <= j < k :: segments[..k][j] == segments[j];
  }

  /** The pages of one more segment are fresh exactly when they are still clear. */
  lemma FreshNext(v0: Pages, v1: Pages, segments: seq<Segment>, k: nat, file: seq<Byte>)
    requires k < |segments| && Imaged(v0, v1, segments[..k], file)
    ensures FreshPages(v0, segments[..k + 1]) <==>
            FreshPages(v0, segments[..k]) && (segments[k].load ==> Clear(v1, Base(segments[k]), End(segments[k])))
  {
    hide FlagsAt, Base, End, FreshFor, Imaged;
    var before, after := segments[..k], segments[..k + 1];
    assert after[k] == segments[k];
    forall i: nat, q: nat | i <= k
      ensures FreshFor(v0, after, i, q) <==> FreshFor(v0, segments, i, q)
      ensures FreshFor(v0, before, i, q) <==> FreshFor(v0, segments, i, q)
    {
      FreshPrefix(v0, segments, k, i, q);
      FreshPrefix(v0, segments, k + 1, i, q);
    }
    forall q: nat ensures FlagsAt(v1, q).None? <==> FreshFor(v0, segments, k, q) {
      FreshUnmapped(v0, v1, segments, k, file, q);
    }
    if FreshPages(v0, after) {
      forall i: nat, q: nat | i < k && Covers(before[i], q) ensures FreshFor(v0, before, i, q) {
        assert Covers(after[i], q);
      }
      forall q: nat | segments[k].load && Base(segments[k]) <= q < End(segments[k]) ensures FlagsAt(v1, q).None? {
        assert Covers(after[k], q);
      }
    }
    if FreshPages(v0, before) && (segments[k].load ==> Clear(v1, Base(segments[k]), End(segments[k]))) {
      forall i: nat, q: nat | i < k + 1 && Covers(after[i], q) ensures FreshFor(v0, after, i, q) {
        if i < k { assert Covers(before[i], q); }
      }
    }
  }

  /** The program header loop of elf_load. */
  method Load(m: Machine, root: nat, segments: seq<Segment>, file: seq<Byte>) returns (ok: bool, heap: nat)
    requires Ready(m, root) && forall i | 0 <= i < |segments| :: Loadable(segments[i], file)
    modifies m, m.pmm
    ensures !ok ==> m.Sane() && m.Exhausted()
    ensures ok ==> Ready(m, root) && Apart(m, root) && heap == HeapStart(segments)
    ensures ok ==> (Exact(m, root) <==> FreshPages(old(View(m.mem, root)), segments))
    ensures ok ==> Imaged(old(View(m.mem, root)), View(m.mem, root), segments, file)
  {
    hide Tree, Frames, View, Plain, Clear, Imaged, Loaded, FreshPages, HeapStart, Base, End;
    ghost var view := View(m.mem, root);
    heap := 0;
    LoadNothing(view, segments, file);
    for k := 0 to |segments|
      invariant Ready(m, root) && Apart(m, root) && heap == HeapStart(segments[..k])
      invariant Exact(m, root) <==> FreshPages(view, segments[..k])
      invariant Imaged(view, View(m.mem, root), segments[..k], file)
    {
      ghost var mid, frames, used := View(m.mem, root), Frames(m.mem, 4, root), m.pmm.used;
      HeapStep(segments, k);
      FreshNext(view, mid, segments, k, file);
      if segments[k].load {
        if End(segments[k]) > heap { heap := End(segments[k]); }
        ok := LoadSegment(m, root, segments[k], file);
        if !ok { return; }
        ExactTwice(old(Frames(m.mem, 4, root)), old(m.pmm.used), frames, used, Frames(m.mem, 4, root), m.pmm.used);
      }
      ImageStep(view, mid, View(m.mem, root), segments, k, file);
    }
    ok := true;
    assert segments[..|segments|] == segments;
  }

  lemma LoadNothing(view: Pages, segments: seq<Segment>, file: seq<Byte>)
    ensures HeapStart(segments[..0]) == 0 && Imaged(view, view, segments[..0], file) && FreshPages(view, segments[..0])
  {
  }

  lemma HeapStep(segments: seq<Segment>, k: nat)
    requires k < |segments|
    ensures HeapStart(segments[..k + 1]) ==
            if segments[k].load && End(segments[k]) > HeapStart(segments[..k]) then End(segments[k]) else HeapStart(segments[..k])
  {
    assert segments[..k + 1][..k] == segments[..k];
  }

  /** The last segment that covers q. */
  function LastCover(segments: seq<Segment>, q: nat): (r: Option<nat>)
    ensures r.Some? ==> r.value < |segments| && Covers(segments[r.value], q)
    ensures r.Some? ==> forall j | r.value < j < |segments| :: !Covers(segments[j], q)
    ensures r.None? ==> forall j | 0 <= j < |segments| :: !Covers(segments[j], q)
  {
    if segments == [] then None
    else if Covers(segments[|segments| - 1], q) then Some(|segments| - 1)
    else LastCover(segments[..|segments| - 1], q)
  }

  /** The last segment that covers q decides its byte and its permissions. */
  lemma {:induction false} ImageOf(segments: seq<Segment>, file: seq<Byte>, q: nat, b: Option<Byte>, f: Option<Entry>)
    ensures var r := LastCover(segments, q);
            && ImageByte(segments, file, q, b) == (if r.Some? then Some(SegmentByte(segments[r.value], file, q)) else b)
            && ImageFlags(segments, q, f) == if r.Some? then Some(PageEntry(0, SegmentFlags(segments[r.value]))) else f
  {
    hide Covers, SegmentByte;
    if segments != [] { ImageOf(segments[..|segments| - 1], file, q, b, f); }
  }

  /** When a segment's byte shows: exactly if no later segment covers it, or the last one that does has
      the same byte there. */
  lemma SegmentShows(segments: seq<Segment>, file: seq<Byte>, i: nat, q: nat, b: Option<Byte>)
    requires i < |segments| && Covers(segments[i], q)
    ensures ImageByte(segments, file, q, b) == Some(SegmentByte(segments[i], file, q)) <==>
            || (forall j | i < j < |segments| :: !Covers(segments[j], q))
            || SegmentByte(segments[LastCover(segments, q).value], file, q) == SegmentByte(segments[i], file, q)
  {
    hide Covers, SegmentByte, ImageByte, LastCover;
    ImageOf(segments, file, q, b, None);
  }

  /** The image the System V gABI asks for: byte k of a segment in memory is its byte k in the file, or
      zero past the file size. */
  lemma {:induction false} SegmentImage(view: Pages, view': Pages, segments: seq<Segment>, file: seq<Byte>, i: nat, k: nat)
    requires Imaged(view, view', segments, file) && PageDisjoint(segments)
    requires i < |segments| && segments[i].load && Loadable(segments[i], file) && k < segments[i].memsz
    ensures ByteAt(view', segments[i].vaddr + k) ==
            Some(if k < segments[i].filesz then file[segments[i].offset + k] else 0)
    ensures var f := FlagsAt(view', segments[i].vaddr + k);
            f.Some? && f.value.present && f.value.user && (f.value.writable <==> segments[i].writable)
  {
    hide ByteAt, FlagsAt, ImageByte, ImageFlags;
    var q := segments[i].vaddr + k;
    Rounding(segments[i].vaddr);
    Rounding(segments[i].vaddr + segments[i].memsz);
    hide Up, Down, LastCover;
    ImageOf(segments, file, q, ByteAt(view, q), FlagsAt(view, q));
    assert LastCover(segments, q) == Some(i);
  }

  const FIRST := Segment(true, false, 0x40_0000, 0, 1, 1)
  const SECOND := Segment(true, true, 0x40_0010, 1, 1, 1)

  /** Two segments on one page: the earlier one's byte is lost. */
  lemma SharedPageLost(file: seq<Byte>, view: Pages)
    requires file == [7, 9]
    ensures Loadable(FIRST, file) && Loadable(SECOND, file) && !FreshPages(view, [FIRST, SECOND])
    ensures SegmentByte(FIRST, file, 0x40_0000) == 7
    ensures ImageByte([FIRST, SECOND], file, 0x40_0000, None) == Some(0)
  {
    var segments := [FIRST, SECOND];
    assert segments[0] == FIRST && segments[1] == SECOND;
    assert Covers(segments[0], 0x40_0000) && Covers(segments[1], 0x40_0000);
    assert LastCover(segments, 0x40_0000) == Some(1);
    ImageOf(segments, file, 0x40_0000, None, None);
    assert !FreshFor(view, segments, 1, 0x40_0000);
  }

  /** Loading them: the byte 7 reads as 0, and a frame stays used that the directory no longer owns. */
  method LoadSharedPage(m: Machine, root: nat) returns (ok: bool)
    requires Ready(m, root) && View(m.mem, root) == map[]
    modifies m, m.pmm
    ensures !ok ==> m.Sane() && m.Exhausted()
    ensures ok ==> ByteAt(View(m.mem, root), 0x40_0000) == Some(0)
    ensures ok ==> exists f :: f in m.pmm.used && f !in Frames(m.mem, 4, root) &&
                               f in old(Frames(m.mem, 4, root)) + (m.pmm.used - old(m.pmm.used))
  {
    hide Tree, Frames, View, Plain, FreshPages, HeapStart, Loadable, ImageByte, ImageFlags;
    ghost var view := View(m.mem, root);
    SharedPageLost([7, 9], view);
    var heap;
    ok, heap := Load(m, root, [FIRST, SECOND], [7, 9]);
    if ok {
      assert ByteAt(view, 0x40_0000) == None;
      LostFrame(old(Frames(m.mem, 4, root)), old(m.pmm.used), Frames(m.mem, 4, root), m.pmm.used);
    }
  }

  lemma LostFrame(f0: set<nat>, u0: set<nat>, f1: set<nat>, u1: set<nat>)
    requires f0 <= u0 <= u1 && f1 <= f0 + (u1 - u0) && f1 != f0 + (u1 - u0)
    ensures exists f :: f in u1 && f !in f1 && f in f0 + (u1 - u0)
  {
    var f :| f in f0 + (u1 - u0) && f !in f1;
    assert f in u1;
  }

  // ---- heap growth ---------------------------------------------------------

  /** PAGE_PRESENT, PAGE_WRITABLE and PAGE_USER. */
  const HEAP_FLAGS: nat := 7

  /** Exactly the pages from Up(a) to Up(b) are new: zeroed, and mapped writable. */
  ghost predicate Extended(view: Pages, view': Pages, a: nat, b: nat)
    requires a <= b
  {
    && Up(a) <= Up(b)
    && Patched(view, view', Up(a), Zeros(Up(b) - Up(a)))
    && Flagged(view, view', Up(a), Up(b), PageEntry(0, HEAP_FLAGS))
  }

  lemma ExtendTwice(v0: Pages, v1: Pages, v2: Pages, a: nat, b: nat, c: nat)
    requires a <= b <= c && Extended(v0, v1, a, b) && Extended(v1, v2, b, c)
    ensures Extended(v0, v2, a, c)
  {
    hide Patched, Flagged, Up;
    PatchUp(v0, v1, v2, Up(a), Zeros(Up(b) - Up(a)), Zeros(Up(c) - Up(b)));
    ZerosUp(Up(b) - Up(a), Up(c) - Up(b));
    FlagsUp(v0, v1, v2, Up(a), Up(b), Up(c), PageEntry(0, HEAP_FLAGS));
  }

  lemma ExtendNothing(v: Pages, a: nat)
    ensures Extended(v, v, a, a) && Clear(v, Up(a), Up(a))
  {
    hide Up;
    MapNothing(v, Up(a), PageEntry(0, HEAP_FLAGS));
  }

  /** sys_heap_grow: the old end is returned, or -1 for a negative increment. */
  method HeapGrow(m: Machine, root: nat, end: nat, increment: int) returns (ok: bool, result: int, end': nat)
    requires Ready(m, root) && end <= USER_TOP && end + increment <= USER_TOP
    modifies m, m.pmm
    ensures !ok ==> m.Sane() && m.Exhausted()
    ensures ok ==> Ready(m, root) && Apart(m, root)
    ensures ok && increment >= 0 ==> end' == end + increment && result == end
    ensures ok && increment < 0 ==> end' == end && result == -1
    ensures ok && increment > 0 ==>
              forall q: nat | Up(end) <= q < end + increment :: ByteAt(View(m.mem, root), q) == Some(0) && Usable(View(m.mem, root), q)
    ensures ok ==>
              forall q: nat | q < Up(end) ::
                ByteAt(View(m.mem, root), q) == ByteAt(old(View(m.mem, root)), q) &&
                FlagsAt(View(m.mem, root), q) == FlagsAt(old(View(m.mem, root)), q)
    ensures ok ==> Extended(old(View(m.mem, root)), View(m.mem, root), end, end')
    ensures ok ==> (Exact(m, root) <==> Clear(old(View(m.mem, root)), Up(end), Up(end')))
  {
    hide Tree, Frames, View, Plain, Patched, Flagged, Clear, Up;
    ghost var view := View(m.mem, root);
    ok, result, end' := true, end, end;
    ExtendNothing(view, end);
    if increment == 0 { return; }
    if increment < 0 { return true, -1, end; }
    end' := end + increment;
    Rounding(end);
    Rounding(end');
    UpMonotone(end, end');
    ok := MapZeroPages(m, root, Up(end), Up(end'), HEAP_FLAGS);
    if ok { NewHeap(view, View(m.mem, root), end, end'); }
  }

  /** What new heap looks like to the program. */
  lemma NewHeap(v0: Pages, v1: Pages, a: nat, b: nat)
    requires a <= b && Extended(v0, v1, a, b)
    ensures forall q: nat | Up(a) <= q < b :: ByteAt(v1, q) == Some(0) && Usable(v1, q)
    ensures forall q: nat | q < Up(a) :: ByteAt(v1, q) == ByteAt(v0, q) && FlagsAt(v1, q) == FlagsAt(v0, q)
  {
    Rounding(b);
    hide ByteAt, Up, Down;
    forall q: nat | Up(a) <= q < b ensures Usable(v1, q) { assert FlagsAt(v1, q).Some?; }
  }

  function EndAfter(end: nat, increments: seq<int>): nat {
    if increments == [] then end
    else
      var before, last := EndAfter(end, increments[..|increments| - 1]), increments[|increments| - 1];
      if last <= 0 then before else before + last
  }

  /** The sum of the positive ones. */
  function Gain(increments: seq<int>): nat {
    if increments == [] then 0 else (if increments[0] > 0 then increments[0] else 0) + Gain(increments[1..])
  }

  lemma {:induction false} GainLast(increments: seq<int>, last: int)
    ensures Gain(increments + [last]) == Gain(increments) + if last > 0 then last else 0
  {
    if increments != [] {
      assert (increments + [last])[1..] == increments[1..] + [last];
      GainLast(increments[1..], last);
    }
  }

  lemma {:induction false} EndIsSum(end: nat, increments: seq<int>)
    ensures EndAfter(end, increments) == end + Gain(increments)
  {
    if increments != [] {
      var n := |increments| - 1;
      EndIsSum(end, increments[..n]);
      GainLast(increments[..n], increments[n]);
      assert increments[..n] + [increments[n]] == increments;
    }
  }

  lemma {:induction false} EndGrows(end: nat, increments: seq<int>, k: nat)
    requires k <= |increments|
    ensures end <= EndAfter(end, increments[..k]) <= EndAfter(end, increments)
    decreases |increments| - k, k
  {
    if k < |increments| {
      EndGrows(end, increments, k + 1);
      assert increments[..k + 1][..k] == increments[..k];
      EndStart(end, increments[..k]);
    } else {
      assert increments[..k] == increments;
      EndStart(end, increments);
    }
  }

  lemma {:induction false} EndStart(end: nat, increments: seq<int>)
    ensures end <= EndAfter(end, increments)
  {
    if increments != [] { EndStart(end, increments[..|increments| - 1]); }
  }

  /** A stretch was clear when its two parts were, the second one judged after the first was mapped. */
  lemma ClearTwice(v0: Pages, v1: Pages, a: nat, b: nat, c: nat)
    requires a <= b <= c && Extended(v0, v1, a, b)
    ensures Clear(v0, Up(a), Up(c)) <==> Clear(v0, Up(a), Up(b)) && Clear(v1, Up(b), Up(c))
  {
    hide Patched, Up, FlagsAt;
    UpMonotone(b, c);
    forall q: nat | Up(b) <= q ensures FlagsAt(v1, q) == FlagsAt(v0, q) { }
  }

  /** Any sequence of heap growths: the pages from the first end to the last are each mapped once,
      zeroed, and nothing else changes. */
  method GrowAll(m: Machine, root: nat, start: nat, increments: seq<int>) returns (ok: bool, end: nat)
    requires Ready(m, root) && start + Gain(increments) <= USER_TOP
    modifies m, m.pmm
    ensures !ok ==> m.Sane() && m.Exhausted()
    ensures ok ==> Ready(m, root) && Apart(m, root) && end == start + Gain(increments)
    ensures ok ==> forall q: nat | Up(start) <= q < end :: ByteAt(View(m.mem, root), q) == Some(0) && Usable(View(m.mem, root), q)
    ensures ok ==> Extended(old(View(m.mem, root)), View(m.mem, root), start, end)
    ensures ok ==> (Exact(m, root) <==> Clear(old(View(m.mem, root)), Up(start), Up(end)))
  {
    hide Tree, Frames, View, Plain, Extended, Clear, Up, EndAfter;
    EndIsSum(start, increments);
    ghost var view, last := View(m.mem, root), EndAfter(start, increments);
    end := start;
    ExtendNothing(view, start);
    NoIncrements(start, increments);
    for k := 0 to |increments|
      invariant Ready(m, root) && Apart(m, root) && start <= end == EndAfter(start, increments[..k]) <= last
      invariant Extended(view, View(m.mem, root), start, end)
      invariant Exact(m, root) <==> Clear(view, Up(start), Up(end))
    {
      ghost var mid, was, frames, used := View(m.mem, root), end, Frames(m.mem, 4, root), m.pmm.used;
      EndGrows(start, increments, k + 1);
      NextIncrement(start, increments, k);
      var result;
      ok, result, end := HeapGrow(m, root, end, increments[k]);
      if !ok { return; }
      ClearTwice(view, mid, start, was, end);
      ExactTwice(old(Frames(m.mem, 4, root)), old(m.pmm.used), frames, used, Frames(m.mem, 4, root), m.pmm.used);
      ExtendTwice(view, mid, View(m.mem, root), start, was, end);
    }
    ok := true;
    assert increments[..|increments|] == increments;
    NewHeap(view, View(m.mem, root), start, end);
  }

  lemma NoIncrements(end: nat, increments: seq<int>)
    ensures EndAfter(end, increments[..0]) == end
    ensures end <= EndAfter(end, increments)
  {
    EndStart(end, increments);
  }

  lemma NextIncrement(end: nat, increments: seq<int>, k: nat)
    requires k < |increments|
    ensures EndAfter(end, increments[..k + 1]) == EndAfter(end, increments[..k]) + if increments[k] > 0 then increments[k] else 0
  {
    assert increments[..k + 1][..k] == increments[..k];
  }

  /** The heap covers everything from its start to its end, starts out as zeros, and leaves every
      segment byte alone. */
  lemma HeapCovers(v0: Pages, v1: Pages, segments: seq<Segment>, end: nat, q: nat)
    requires HeapStart(segments) <= end && Extended(v0, v1, HeapStart(segments), end)
    ensures HeapStart(segments) <= q < end ==> ByteAt(v1, q) == Some(0) && Usable(v1, q)
    ensures q < HeapStart(segments) ==> ByteAt(v1, q) == ByteAt(v0, q) && FlagsAt(v1, q) == FlagsAt(v0, q)
    ensures forall i | 0 <= i < |segments| && Covers(segments[i], q) :: q < HeapStart(segments)
  {
    NewHeap(v0, v1, HeapStart(segments), end);
    hide ByteAt, FlagsAt, HeapStart, Usable, Extended;
    Rounding(HeapStart(segments));
    hide Up, Down;
  }
}
