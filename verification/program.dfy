/** elf_load as a whole (kernel/core/elf.c): segments, stack page and arguments. */
module Program {
  import opened Wrappers
  import opened Words
  import opened PageTables
  import opened Paging
  import opened UserMemory
  import opened Elf
  import opened Argv

  /** A program to load: its decoded program headers, its file and its arguments. */
  datatype Executable = Executable(segments: seq<Segment>, file: seq<Byte>, argv: seq<seq<Byte>>)

  /** Segments that fit their memory in the user half. */
  predicate WellFormed(x: Executable) {
    (forall i | 0 <= i < |x.segments| :: Loadable(x.segments[i], x.file)) && CStrings(x.argv)
  }

  /** No segment covers the stack page. */
  ghost predicate StackFree(x: Executable) {
    forall q: nat | STACK <= q < TOP :: FreshFor(map[], x.segments, |x.segments|, q)
  }

  /** No two segments, and no segment and the stack, meet in a page. */
  ghost predicate Clean(x: Executable) {
    FreshPages(map[], x.segments) && StackFree(x)
  }

  /** Page-disjoint segments below the stack are clean. */
  lemma DisjointClean(x: Executable)
    requires PageDisjoint(x.segments)
    requires forall i | 0 <= i < |x.segments| && x.segments[i].load :: End(x.segments[i]) <= STACK
    ensures Clean(x)
  {
    hide Base, End, PageDisjoint;
    DisjointFresh(map[], x.segments);
  }

  /** Outside the stack page the process sees the image. */
  ghost predicate ImagedBelowStack(view: Pages, view': Pages, x: Executable) {
    && (forall q: nat | !(STACK <= q < TOP) :: ByteAt(view', q) == ImageByte(x.segments, x.file, q, ByteAt(view, q)))
    && (forall q: nat :: FlagsAt(view', q) == if STACK <= q < TOP then Some(PageEntry(0, HEAP_FLAGS))
                                             else ImageFlags(x.segments, q, FlagsAt(view, q)))
  }

  lemma WithStack(v0: Pages, v1: Pages, v2: Pages, v3: Pages, x: Executable)
    requires Imaged(v0, v1, x.segments, x.file)
    requires Patched(v1, v2, STACK, Zeros(PAGE_SIZE)) && Flagged(v1, v2, STACK, TOP, PageEntry(0, HEAP_FLAGS))
    requires SameFlags(v2, v3) && Argv.Below(v2, v3)
    ensures ImagedBelowStack(v0, v3, x)
  {
    hide ByteAt, FlagsAt, ImageByte, ImageFlags;
  }

  lemma StackClear(v0: Pages, v1: Pages, x: Executable)
    requires Imaged(v0, v1, x.segments, x.file) && v0 == map[]
    ensures Clear(v1, STACK, TOP) <==> StackFree(x)
  {
    hide FlagsAt, Imaged, FreshFor;
    assert x.segments[..|x.segments|] == x.segments;
    forall q: nat ensures FlagsAt(v1, q).None? <==> FreshFor(v0, x.segments, |x.segments|, q) {
      FreshUnmapped(v0, v1, x.segments, |x.segments|, x.file, q);
    }
  }

  /** elf_load into an empty directory. Without usable arguments argc and argv are 0 and the stack
      starts at its last word. */
  method ElfLoad(m: Machine, root: nat, x: Executable) returns (ok: bool, heap: nat, argc: nat, top: nat, argvAddr: nat)
    requires Ready(m, root) && WellFormed(x) && View(m.mem, root) == map[]
    modifies m, m.pmm
    ensures !ok ==> m.Sane() && m.Exhausted()
    ensures ok ==> Ready(m, root) && Apart(m, root) && heap == HeapStart(x.segments)
    ensures ok ==> (Exact(m, root) <==> Clean(x))
    ensures ok ==> ImagedBelowStack(old(View(m.mem, root)), View(m.mem, root), x)
    ensures ok ==> forall q: nat | STACK <= q < TOP :: Usable(View(m.mem, root), q)
    ensures ok ==>
              if 0 < |x.argv| < MAX_ARGV_COUNT && BlockSize(x.argv) <= MAX_ARGV_BLOCK_SIZE then
                && argc == |x.argv| && top == argvAddr == TOP - BlockSize(x.argv)
                && ReadArgv(View(m.mem, root), argvAddr, MAX_ARGV_COUNT) == Some(x.argv)
              else argc == 0 && argvAddr == 0 && top == TOP - 8
  {
    hide Tree, Frames, View, Plain, Imaged, Patched, Flagged, SameFlags, Covered, Clear, StackFree, FreshPages, Argv.Below,
         Addressed, Laid, ReadArgv, BlockSize, ImagedBelowStack, HeapStart, CStrings;
    ghost var v0 := View(m.mem, root);
    ok, heap := Load(m, root, x.segments, x.file);
    argc, top, argvAddr := 0, TOP - 8, 0;
    if !ok { return; }
    ghost var v1, f1, u1 := View(m.mem, root), Frames(m.mem, 4, root), m.pmm.used;
    StackClear(v0, v1, x);
    ok := MapZeroPages(m, root, STACK, TOP, HEAP_FLAGS);
    if !ok { return; }
    ghost var v2 := View(m.mem, root);
    ExactTwice(old(Frames(m.mem, 4, root)), old(m.pmm.used), f1, u1, Frames(m.mem, 4, root), m.pmm.used);
    CoveredAfter(v1, v2, STACK, TOP, PageEntry(0, HEAP_FLAGS), STACK, TOP);
    var r := BuildArgv(m, root, x.argv);
    if r.Some? {
      argc, top := r.value.0, r.value.1;
      argvAddr := top;
    }
    WithStack(v0, v1, v2, View(m.mem, root), x);
    StackUsable(v0, View(m.mem, root), x);
  }

  lemma StackUsable(v0: Pages, v1: Pages, x: Executable)
    requires ImagedBelowStack(v0, v1, x)
    ensures forall q: nat | STACK <= q < TOP :: Usable(v1, q)
  {
    hide ByteAt, ImageByte, ImageFlags;
    forall q: nat | STACK <= q < TOP ensures Usable(v1, q) { assert FlagsAt(v1, q).Some?; }
  }

  /** The heap has room exactly up to the stack page: growing it that far maps every page once and loses
      no frame, growing it further takes the stack page away. */
  lemma HeapRoom(v0: Pages, v1: Pages, x: Executable, end: nat)
    requires v0 == map[] && ImagedBelowStack(v0, v1, x) && HeapStart(x.segments) <= end
    ensures Clear(v1, Up(HeapStart(x.segments)), Up(end)) <==> end <= STACK || TOP <= HeapStart(x.segments)
  {
    hide ByteAt, ImageByte, ImageFlags, HeapStart, Base, End;
    var h := HeapStart(x.segments);
    Rounding(h);
    Rounding(end);
    Rounding(STACK);
    if end <= STACK { UpMonotone(end, STACK); }
    hide Up, Down;
    if end <= STACK || TOP <= h {
      forall q: nat | Up(h) <= q < Up(end) ensures FlagsAt(v1, q).None? {
        ImageElsewhere(x.segments, q, FlagsAt(v0, q));
      }
    } else {
      assert FlagsAt(v1, STACK).Some? && Up(h) <= STACK < Up(end);
    }
  }
}
