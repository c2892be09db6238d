/** Who owns which physical frame: the memory side of process creation, fork, exec, heap growth and
    reaping (kernel/processes/process.c, kernel/processes/syscall.c). */
module ProcessMemory {
  import opened Wrappers
  import opened Words
  import opened PageTables
  import opened Paging
  import opened UserMemory
  import opened Argv
  import opened Program

  /** The frames a process holds: its page directory and its kernel stack page. */
  datatype Proc = Proc(dir: nat, stack: nat)

  ghost function Owned(mem: Memory, p: Proc): set<nat> {
    Frames(mem, 4, p.dir) + {p.stack}
  }

  ghost predicate ProcOk(mem: Memory, p: Proc) {
    Tree(mem, 4, p.dir) && AllOpen(mem, p.dir) && p.stack !in Frames(mem, 4, p.dir) && 0 !in Owned(mem, p)
  }

  /** The frames of process k, none if there is no such process. */
  ghost function Part(mem: Memory, procs: map<nat, Proc>, k: nat): set<nat> {
    if k in procs then Owned(mem, procs[k]) else {}
  }

  /** Every used frame has exactly one owner: one process, or `base` (reserved and kernel pages). */
  ghost predicate Ownership(mem: Memory, used: set<nat>, procs: map<nat, Proc>, base: set<nat>) {
    && (forall k | k in procs :: ProcOk(mem, procs[k]))
    && (forall k :: Part(mem, procs, k) <= used - base)
    && (forall j, k | j != k :: Part(mem, procs, j) !! Part(mem, procs, k))
    && (forall f | f in used - base :: exists k :: f in Part(mem, procs, k))
    && base <= used
  }

  /** Only process k changed hands with the allocator; everyone else kept frames and contents. */
  ghost predicate Rebalanced(mem: Memory, mem': Memory, used: set<nat>, used': set<nat>,
                             procs: map<nat, Proc>, procs': map<nat, Proc>, k: nat)
  {
    && |mem| == |mem'| && procs' - {k} == procs - {k}
    && (forall f | f in used && f !in Part(mem, procs, k) :: f < |mem| ==> mem'[f] == mem[f])
    && used' == used - Part(mem, procs, k) + Part(mem', procs', k)
    && (k in procs' ==> ProcOk(mem', procs'[k]))
    && Part(mem', procs', k) !! used - Part(mem, procs, k)
  }

  /** Every process outside `touched` owns the frames it owned and sees the memory it saw. */
  ghost predicate OthersSee(mem: Memory, mem': Memory, procs: map<nat, Proc>, procs': map<nat, Proc>, touched: set<nat>) {
    forall j | j in procs && j !in touched ::
      && j in procs' && procs'[j] == procs[j]
      && Part(mem', procs', j) == Part(mem, procs, j)
      && View(mem', procs[j].dir) == View(mem, procs[j].dir)
  }

  lemma OtherEntry(procs: map<nat, Proc>, procs': map<nat, Proc>, k: nat, j: nat)
    requires procs' - {k} == procs - {k} && j != k
    ensures j in procs' <==> j in procs
    ensures j in procs ==> procs'[j] == procs[j]
  {
    assert j in procs' <==> j in procs' - {k};
    assert j in procs <==> j in procs - {k};
    if j in procs { assert procs'[j] == (procs' - {k})[j] == (procs - {k})[j] == procs[j]; }
  }

  lemma {:induction false} OtherKept(mem: Memory, mem': Memory, used: set<nat>, used': set<nat>,
                                     procs: map<nat, Proc>, procs': map<nat, Proc>, base: set<nat>, k: nat, j: nat)
    requires Ownership(mem, used, procs, base) && Rebalanced(mem, mem', used, used', procs, procs', k) && j != k
    ensures Part(mem', procs', j) == Part(mem, procs, j)
    ensures j in procs ==>
              j in procs' && ProcOk(mem', procs[j]) && View(mem', procs[j].dir) == View(mem, procs[j].dir)
  {
    hide Tree, Frames, View;
    OtherEntry(procs, procs', k, j);
    if j in procs {
      assert Part(mem, procs, j) !! Part(mem, procs, k);
      Isolated(mem, mem', procs[j].dir);
    }
  }

  /** The step of every operation: changing one process keeps exact ownership, and every other
      process sees the same memory. */
  lemma {:induction false} Rebalance(mem: Memory, mem': Memory, used: set<nat>, used': set<nat>,
                                     procs: map<nat, Proc>, procs': map<nat, Proc>, base: set<nat>, k: nat)
    requires Ownership(mem, used, procs, base) && Rebalanced(mem, mem', used, used', procs, procs', k)
    ensures Ownership(mem', used', procs', base)
    ensures OthersSee(mem, mem', procs, procs', {k})
  {
    hide Tree, Frames, View, Owned, ProcOk;
    forall j | j != k
      ensures Part(mem', procs', j) == Part(mem, procs, j)
      ensures j in procs' <==> j in procs
      ensures j in procs ==> procs'[j] == procs[j] && ProcOk(mem', procs[j]) &&
                             View(mem', procs[j].dir) == View(mem, procs[j].dir)
    {
      OtherKept(mem, mem', used, used', procs, procs', base, k, j);
      OtherEntry(procs, procs', k, j);
    }
    forall f | f in used' - base ensures exists j :: f in Part(mem', procs', j) {
      if f !in Part(mem', procs', k) {
        assert f in used - base;
        var j: nat :| f in Part(mem, procs, j);
        assert f in Part(mem', procs', j);
      }
    }
    forall i, j | i != j ensures Part(mem', procs', i) !! Part(mem', procs', j) {
      if i != k { assert Part(mem, procs, i) !! Part(mem, procs, k); }
      if j != k { assert Part(mem, procs, j) !! Part(mem, procs, k); }
    }
  }

  lemma {:induction false} Assign(mem: Memory, mem': Memory, used: set<nat>, used': set<nat>,
                                  procs: map<nat, Proc>, base: set<nat>, k: nat, p: Proc)
    requires Ownership(mem, used, procs, base) && |mem| == |mem'| && ProcOk(mem', p)
    requires forall f | f in used && f !in Part(mem, procs, k) :: f < |mem| ==> mem'[f] == mem[f]
    requires used' == used - Part(mem, procs, k) + Owned(mem', p)
    requires Owned(mem', p) !! used - Part(mem, procs, k)
    ensures Ownership(mem', used', procs[k := p], base)
    ensures OthersSee(mem, mem', procs, procs[k := p], {k})
  {
    hide Tree, Frames, View, Owned, ProcOk, Ownership;
    assert procs[k := p] - {k} == procs - {k};
    Rebalance(mem, mem', used, used', procs, procs[k := p], base, k);
  }

  lemma {:induction false} Release(mem: Memory, used: set<nat>, procs: map<nat, Proc>, base: set<nat>, k: nat)
    requires Ownership(mem, used, procs, base)
    ensures Ownership(mem, used - Part(mem, procs, k), procs - {k}, base)
    ensures OthersSee(mem, mem, procs, procs - {k}, {k})
  {
    hide Tree, Frames, View, Owned, ProcOk, Ownership;
    assert procs - {k} - {k} == procs - {k};
    Rebalance(mem, mem, used, used - Part(mem, procs, k), procs, procs - {k}, base, k);
  }

  lemma {:induction false} IsolatedProc(mem: Memory, mem': Memory, p: Proc)
    requires ProcOk(mem, p) && |mem| == |mem'|
    requires forall f | f in Owned(mem, p) :: f < |mem| ==> mem'[f] == mem[f]
    ensures ProcOk(mem', p) && Owned(mem', p) == Owned(mem, p) && View(mem', p.dir) == View(mem, p.dir)
  {
    hide Tree, Frames, View;
    Isolated(mem, mem', p.dir);
  }

  lemma {:induction false} SameProc(mem: Memory, mem': Memory, used: set<nat>, procs: map<nat, Proc>, base: set<nat>, k: nat)
    requires Ownership(mem, used, procs, base) && |mem| == |mem'|
    requires forall f | f in used :: f < |mem| ==> mem'[f] == mem[f]
    ensures Part(mem', procs, k) == Part(mem, procs, k)
    ensures k in procs ==> ProcOk(mem', procs[k]) && View(mem', procs[k].dir) == View(mem, procs[k].dir)
  {
    hide Tree, Frames, View;
    assert Part(mem, procs, k) <= used - base;
    if k in procs { IsolatedProc(mem, mem', procs[k]); }
  }

  /** Contents of used frames kept: nothing changes for anyone. */
  lemma {:induction false} Untouched(mem: Memory, mem': Memory, used: set<nat>, procs: map<nat, Proc>, base: set<nat>)
    requires Ownership(mem, used, procs, base) && |mem| == |mem'|
    requires forall f | f in used :: f < |mem| ==> mem'[f] == mem[f]
    ensures Ownership(mem', used, procs, base)
    ensures forall touched: set<nat> :: OthersSee(mem, mem', procs, procs, touched)
  {
    hide Tree, Frames, View, Owned, ProcOk;
    forall k: nat
      ensures Part(mem', procs, k) == Part(mem, procs, k)
      ensures k in procs ==> ProcOk(mem', procs[k]) && View(mem', procs[k].dir) == View(mem, procs[k].dir)
    {
      SameProc(mem, mem', used, procs, base, k);
    }
    forall f | f in used - base ensures exists k :: f in Part(mem', procs, k) {
      var k: nat :| f in Part(mem, procs, k);
      assert f in Part(mem', procs, k);
    }
  }

  /** Exact ownership makes the bitmap a function of what the processes own. */
  lemma {:induction false} Accounted(mem: Memory, mem': Memory, used: set<nat>, used': set<nat>,
                                     procs: map<nat, Proc>, base: set<nat>, base': set<nat>, touched: set<nat>)
    requires touched !! procs.Keys && Ownership(mem, used, procs, base) && Ownership(mem', used', procs, base')
    requires OthersSee(mem, mem', procs, procs, touched)
    ensures used' - base' == used - base
  {
    hide View, Owned, ProcOk;
    forall j: nat ensures Part(mem', procs, j) == Part(mem, procs, j) { }
    forall f ensures f in used - base <==> f in used' - base' {
      if f in used - base { var j: nat :| f in Part(mem, procs, j); assert f in Part(mem', procs, j); }
      if f in used' - base' { var j: nat :| f in Part(mem', procs, j); assert f in Part(mem, procs, j); }
    }
  }

  /** Frames that nobody owns any more count as reserved. */
  lemma {:induction false} Forsaken(mem: Memory, used: set<nat>, procs: map<nat, Proc>, base: set<nat>, lost: set<nat>)
    requires Ownership(mem, used, procs, base) && lost !! used
    ensures Ownership(mem, used + lost, procs, base + lost)
  {
    hide Part, ProcOk;
    assert used + lost - (base + lost) == used - base;
  }

  /** Assign, with frames gone on the way that join the lost ones. */
  lemma {:induction false} AssignLossy(mem: Memory, mem': Memory, used: set<nat>, used': set<nat>, procs: map<nat, Proc>,
                                       base: set<nat>, lost: set<nat>, k: nat, p: Proc, gone: set<nat>)
    requires Ownership(mem, used, procs, base + lost) && |mem| == |mem'| && ProcOk(mem', p)
    requires forall f | f in used && f !in Part(mem, procs, k) :: f < |mem| ==> mem'[f] == mem[f]
    requires used' == used - Part(mem, procs, k) + Owned(mem', p) + gone
    requires gone !! Owned(mem', p) && gone !! used - Part(mem, procs, k)
    requires Owned(mem', p) !! used - Part(mem, procs, k)
    ensures Ownership(mem', used', procs[k := p], base + (lost + gone))
    ensures OthersSee(mem, mem', procs, procs[k := p], {k})
    ensures lost <= lost + gone && (lost + gone == lost <==> gone == {})
  {
    hide Tree, Frames, View, Owned, ProcOk, OthersSee;
    assert Part(mem, procs, k) <= used - (base + lost) && base + lost <= used;
    hide Ownership, Part;
    var kept := used - Part(mem, procs, k) + Owned(mem', p);
    Assign(mem, mem', used, kept, procs, base + lost, k, p);
    Forsaken(mem', kept, procs[k := p], base + lost, gone);
    assert kept + gone == used' && base + lost + gone == base + (lost + gone);
    if f :| f in gone { assert f !in lost; }
  }

  lemma {:induction false} OthersSeeTwice(m0: Memory, m1: Memory, m2: Memory, p0: map<nat, Proc>, p1: map<nat, Proc>,
                                          p2: map<nat, Proc>, s: set<nat>, t: set<nat>)
    requires OthersSee(m0, m1, p0, p1, s) && OthersSee(m1, m2, p1, p2, t)
    ensures OthersSee(m0, m2, p0, p2, s + t)
  {
    hide View, Part;
  }

  lemma PartOf(mem: Memory, used: set<nat>, procs: map<nat, Proc>, base: set<nat>, k: nat)
    requires Ownership(mem, used, procs, base) && k in procs
    ensures ProcOk(mem, procs[k]) && Part(mem, procs, k) == Owned(mem, procs[k]) <= used - {0}
    ensures IsTable(mem, procs[k].dir)
  {
    assert Part(mem, procs, k) <= used - base;
  }

  /** A kernel stack page and a cloned directory: what process_create and process_exec allocate. */
  method NewProc(m: Machine) returns (r: Option<Proc>)
    requires m.Sane()
    modifies m, m.pmm
    ensures m.Sane() && m.pmm.Drift() == old(m.pmm.Drift())
    ensures r.None? ==> m.Exhausted()
    ensures old(m.pmm.used) <= m.pmm.used && forall f | f in old(m.pmm.used) :: m.mem[f] == old(m.mem)[f]
    ensures r.Some? ==>
              && ProcOk(m.mem, r.value) && Owned(m.mem, r.value) == m.pmm.used - old(m.pmm.used)
              && Space(m.mem, r.value.dir) == map[]
  {
    hide Tree, Frames, View, Space, IsTable, IsPage;
    var stack := m.AllocPage();
    if stack.None? { return None; }
    var dir := m.CloneDirectory();
    if dir.None? { return None; }
    r := Some(Proc(dir.value, stack.value));
    assert Owned(m.mem, r.value) == m.pmm.used - old(m.pmm.used);
  }

  /** A copy of the kernel stack page and of the directory: what process_fork allocates. */
  method CopyProc(m: Machine, from: Proc) returns (r: Option<Proc>)
    requires m.Sane() && ProcOk(m.mem, from) && Owned(m.mem, from) <= m.pmm.used
    modifies m, m.pmm
    ensures m.Sane() && m.pmm.Drift() == old(m.pmm.Drift())
    ensures r.None? ==> m.Exhausted()
    ensures old(m.pmm.used) <= m.pmm.used && forall f | f in old(m.pmm.used) :: m.mem[f] == old(m.mem)[f]
    ensures r.Some? ==>
              && ProcOk(m.mem, r.value) && Owned(m.mem, r.value) == m.pmm.used - old(m.pmm.used)
              && View(m.mem, r.value.dir) == old(View(m.mem, from.dir))
              && r.value.stack < |m.mem| && from.stack < |old(m.mem)| && m.mem[r.value.stack] == old(m.mem)[from.stack]
  {
    hide Tree, Frames, View, IsTable, IsPage;
    var stack := m.AllocPage();
    if stack.None? { return None; }
    m.mem := m.mem[stack.value := m.mem[from.stack]];
    Isolated(old(m.mem), m.mem, from.dir);
    var dir := m.DeepCopyDirectory(from.dir);
    if dir.None? { return None; }
    r := Some(Proc(dir.value, stack.value));
    assert Owned(m.mem, r.value) == m.pmm.used - old(m.pmm.used);
  }

  lemma EmptyView(mem: Memory, root: nat)
    requires Space(mem, root) == map[]
    ensures View(mem, root) == map[] && Plain(View(mem, root))
  {
    hide Space;
  }

  /** The same with a program loaded into it. */
  method NewImage(m: Machine, x: Executable) returns (r: Option<Proc>)
    requires m.Sane() && WellFormed(x)
    modifies m, m.pmm
    ensures r.Some? ==> m.Sane() && m.pmm.Drift() == old(m.pmm.Drift())
    ensures r.None? ==> m.Sane() && m.Exhausted()
    ensures r.Some? ==> old(m.pmm.used) <= m.pmm.used && forall f | f in old(m.pmm.used) :: m.mem[f] == old(m.mem)[f]
    ensures r.Some? ==>
              && ProcOk(m.mem, r.value) && Owned(m.mem, r.value) <= m.pmm.used - old(m.pmm.used)
              && (Owned(m.mem, r.value) == m.pmm.used - old(m.pmm.used) <==> Clean(x))
              && ImagedBelowStack(map[], View(m.mem, r.value.dir), x)
  {
    hide Tree, Frames, View, Space, IsTable, IsPage, WellFormed, ImagedBelowStack, ReadArgv, Plain, Clean;
    r := NewProc(m);
    if r.None? { return; }
    var p := r.value;
    EmptyView(m.mem, p.dir);
    ghost var frames, used := Frames(m.mem, 4, p.dir), m.pmm.used;
    var ok, heap, argc, top, argvAddr := ElfLoad(m, p.dir, x);
    if !ok { return None; }
    LoadedFrames(old(m.pmm.used), used, m.pmm.used, frames, Frames(m.mem, 4, p.dir), p.stack);
  }

  lemma LoadedFrames(u0: set<nat>, u1: set<nat>, u2: set<nat>, f1: set<nat>, f2: set<nat>, stack: nat)
    requires u0 <= u1 <= u2 && f1 + {stack} == u1 - u0 && stack !in f1 && f2 <= f1 + (u2 - u1)
    ensures f2 + {stack} <= u2 - u0 && stack !in f2
    ensures f2 + {stack} == u2 - u0 <==> f2 == f1 + (u2 - u1)
  {
    assert stack in f1 + {stack};
    if f2 + {stack} == u2 - u0 {
      forall f | f in f1 + (u2 - u1) ensures f in f2 { assert f in f2 + {stack}; }
    }
  }

  /** paging_free_directory and pmm_free of the kernel stack, as every teardown path does. */
  method FreeProc(m: Machine, p: Proc)
    requires m.Sane() && ProcOk(m.mem, p) && Owned(m.mem, p) <= m.pmm.used
    modifies m.pmm
    ensures m.Sane() && m.pmm.Drift() == old(m.pmm.Drift())
    ensures m.pmm.used == old(m.pmm.used) - Owned(m.mem, p)
  {
    hide Tree, Frames;
    m.FreeDirectory(p.dir);
    m.pmm.Free(p.stack);
  }

  lemma Remainder(a: set<nat>, b: set<nat>)
    requires b <= a
    ensures a - b == {} <==> b == a
  {
    if a - b == {} {
      forall f | f in a ensures f in b { assert f !in a - b; }
    }
  }

  /** What mapping over a page does to the accounts of a process: the leaf is no longer its own. */
  lemma Replaced(u0: set<nat>, u1: set<nat>, f0: set<nat>, f1: set<nat>, leaf: set<nat>, stack: nat)
    requires f0 + {stack} <= u0 <= u1 && leaf <= f0 && stack !in f0 && f1 == f0 + (u1 - u0) - leaf
    ensures u1 == u0 - (f0 + {stack}) + (f1 + {stack}) + leaf
    ensures leaf !! f1 + {stack} && leaf !! u0 - (f0 + {stack})
    ensures f1 + {stack} !! u0 - (f0 + {stack}) && stack !in f1
  {
  }

  /** Process p changed hands with the allocator and `gone` frames are nobody's now. */
  ghost predicate Exchanged(used: set<nat>, used': set<nat>, owned: set<nat>, owned': set<nat>, gone: set<nat>) {
    && used' == used - owned + owned' + gone
    && gone !! owned' && gone !! used - owned && owned' !! used - owned
  }

  lemma OpenEntry(mem: Memory, root: nat, va: nat, flags: nat)
    requires AllOpen(mem, root) && va < USER_TOP
    ensures Limited(PageEntry(0, flags), Translate(mem, 4, root, va).rights) == PageEntry(0, flags)
    ensures Carries(PageEntry(0, flags), flags)
  {
    hide Translate;
  }

  /** A zeroed page at va for process p; the page mapped there before, if any, is gone. */
  method GrowProc(m: Machine, p: Proc, va: nat, flags: nat) returns (ok: bool, ghost leaf: set<nat>)
    requires m.Sane() && ProcOk(m.mem, p) && Owned(m.mem, p) <= m.pmm.used
    requires va < USER_TOP && flags % 2 == 1 && !Translate(m.mem, 4, p.dir, va).Huge?
    modifies m, m.pmm
    ensures !ok ==> m.Sane() && m.Exhausted()
    ensures ok ==> m.Sane() && m.pmm.Drift() == old(m.pmm.Drift()) && |m.mem| == |old(m.mem)| && ProcOk(m.mem, p)
    ensures ok ==> forall f | f in old(m.pmm.used) && f !in old(Owned(m.mem, p)) :: m.mem[f] == old(m.mem)[f]
    ensures ok ==> Exchanged(old(m.pmm.used), m.pmm.used, old(Owned(m.mem, p)), Owned(m.mem, p), leaf)
    ensures ok ==> (leaf == {} <==> va / 4096 !in old(Space(m.mem, p.dir)))
    ensures ok ==> View(m.mem, p.dir) ==
                   old(View(m.mem, p.dir))[va / 4096 := PageView(PageEntry(0, flags), Page(ZEROS))]
    ensures ok ==> Carries(PageEntry(0, flags), flags)
  {
    OpenEntry(m.mem, p.dir, va, flags);
    hide Tree, Frames, View, Space, Translate, AllOpen, PageEntry, Carries, Limited;
    InSpace(m.mem, p.dir, va);
    UserIndex(va);
    LeafOwned(m.mem, 4, p.dir, va);
    ghost var frames := Frames(m.mem, 4, p.dir);
    leaf := LeafFrame(Translate(m.mem, 4, p.dir, va));
    assert leaf == {} <==> va / 4096 !in Space(m.mem, p.dir);
    hide LeafFrame;
    ok := m.MapZeroed(p.dir, va, flags);
    if ok { Replaced(old(m.pmm.used), m.pmm.used, frames, Frames(m.mem, 4, p.dir), leaf, p.stack); }
  }

  /** The new image in place of the old one; frames lost in loading it are gone. */
  method SwapImage(m: Machine, was: Proc, x: Executable) returns (p: Option<Proc>, ghost gone: set<nat>)
    requires m.Sane() && ProcOk(m.mem, was) && Owned(m.mem, was) <= m.pmm.used && WellFormed(x)
    modifies m, m.pmm
    ensures p.None? ==> m.Sane() && m.Exhausted()
    ensures p.Some? ==> m.Sane() && m.pmm.Drift() == old(m.pmm.Drift()) && |m.mem| == |old(m.mem)| && ProcOk(m.mem, p.value)
    ensures p.Some? ==> forall f | f in old(m.pmm.used) :: m.mem[f] == old(m.mem)[f]
    ensures p.Some? ==> Exchanged(old(m.pmm.used), m.pmm.used, old(Owned(m.mem, was)), Owned(m.mem, p.value), gone)
    ensures p.Some? ==> (gone == {} <==> Clean(x)) && ImagedBelowStack(map[], View(m.mem, p.value.dir), x)
  {
    hide Tree, Frames, View, Space, Owned, ProcOk, WellFormed, ImagedBelowStack, Clean;
    gone := {};
    p := NewImage(m, x);
    if p.None? { return; }
    IsolatedProc(old(m.mem), m.mem, was);
    ghost var used := m.pmm.used;
    gone := used - old(m.pmm.used) - Owned(m.mem, p.value);
    Remainder(used - old(m.pmm.used), Owned(m.mem, p.value));
    FreeProc(m, was);
    Swapped(old(m.pmm.used), used, old(Owned(m.mem, was)), Owned(m.mem, p.value));
  }

  lemma Swapped(u0: set<nat>, u1: set<nat>, o0: set<nat>, o1: set<nat>)
    requires o0 <= u0 <= u1 && o1 <= u1 - u0
    ensures Exchanged(u0, u1 - o0, o0, o1, u1 - u0 - o1)
  {
    assert u1 - o0 == u0 - o0 + o1 + (u1 - u0 - o1);
  }

  class ProcessTable {
    const m: Machine
    var procs: map<nat, Proc>
    ghost const base: set<nat>
    ghost var lost: set<nat>  // frames still used that no directory holds any more

    constructor (m: Machine)
      requires m.Sane()
      ensures this.m == m && procs == map[] && lost == {} && Valid()
    {
      this.m := m;
      procs := map[];
      base, lost := m.pmm.used, {};
    }

    ghost predicate Valid()
      reads this, m, m.pmm
    {
      m.Sane() && Ownership(m.mem, m.pmm.used, procs, base + lost)
    }

    /** The operation touched process k only: exact ownership still holds, the counter still tracks
        the bitmap, and every other process owns and sees what it did. */
    twostate predicate Touched(k: nat)
      reads this, m, m.pmm
    {
      && Valid() && m.pmm.Drift() == old(m.pmm.Drift()) && old(lost) <= lost
      && OthersSee(old(m.mem), m.mem, old(procs), procs, {k})
    }

    /** The out-of-memory panic halted the kernel. */
    ghost predicate Halted()
      reads this, m, m.pmm
    {
      m.pmm.Valid() && m.Exhausted()
    }

    /** process_create: a kernel stack page and an empty address space for a new pid. */
    method Create(k: nat) returns (ok: bool)
      requires Valid() && k !in procs
      modifies this, m, m.pmm
      ensures ok ==> Touched(k) && lost == old(lost) && procs.Keys == old(procs.Keys) + {k} && Space(m.mem, procs[k].dir) == map[]
      ensures !ok ==> Halted()
    {
      hide Tree, Frames, View, Space, Ownership, OthersSee;
      var p := NewProc(m);
      if p.None? { return false; }
      Assign(old(m.mem), m.mem, old(m.pmm.used), m.pmm.used, procs, base + lost, k, p.value);
      procs := procs[k := p.value];
      return true;
    }

    /** process_fork: a copy of the parent's kernel stack page and a deep copy of its directory. */
    method Fork(parent: nat, k: nat) returns (ok: bool)
      requires Valid() && parent in procs && k !in procs
      modifies this, m, m.pmm
      ensures ok ==>
                && Touched(k) && lost == old(lost) && procs.Keys == old(procs.Keys) + {k}
                && View(m.mem, procs[k].dir) == old(View(m.mem, procs[parent].dir))
                && Owned(m.mem, procs[k]) !! old(m.pmm.used)
                && procs[k].stack < |m.mem| && old(procs)[parent].stack < |old(m.mem)|
                && m.mem[procs[k].stack] == old(m.mem)[old(procs)[parent].stack]
      ensures !ok ==> Halted()
    {
      hide Tree, Frames, View, Ownership, OthersSee, Owned, ProcOk;
      PartOf(m.mem, m.pmm.used, procs, base + lost, parent);
      var p := CopyProc(m, procs[parent]);
      if p.None? { return false; }
      Assign(old(m.mem), m.mem, old(m.pmm.used), m.pmm.used, procs, base + lost, k, p.value);
      procs := procs[k := p.value];
      return true;
    }

    /** One page of sys_heap_grow or elf_load: a zeroed page for process k. A page that was mapped there
        is lost. */
    method Grow(k: nat, va: nat, flags: nat) returns (ok: bool)
      requires Valid() && k in procs && va < USER_TOP && flags % 2 == 1
      requires !Translate(m.mem, 4, procs[k].dir, va).Huge?
      modifies this, m, m.pmm
      ensures ok ==>
                && Touched(k) && procs == old(procs)
                && (lost == old(lost) <==> va / 4096 !in old(Space(m.mem, procs[k].dir)))
                && va / 4096 in View(m.mem, procs[k].dir) && Carries(View(m.mem, procs[k].dir)[va / 4096].entry, flags)
                && View(m.mem, procs[k].dir) ==
                   old(View(m.mem, procs[k].dir))[va / 4096 := PageView(PageEntry(0, flags), Page(ZEROS))]
      ensures !ok ==> Halted()
    {
      hide Tree, Frames, View, Space, Ownership, OthersSee, Translate, Owned, ProcOk;
      PartOf(m.mem, m.pmm.used, procs, base + lost, k);
      var p := procs[k];
      ghost var leaf;
      ok, leaf := GrowProc(m, p, va, flags);
      if !ok { return; }
      AssignLossy(old(m.mem), m.mem, old(m.pmm.used), m.pmm.used, procs, base, lost, k, p, leaf);
      assert procs[k := p] == procs;
      lost := lost + leaf;
    }

    /** A user-mode store by process k. */
    method Store(k: nat, va: nat, b: Byte)
      requires Valid() && k in procs && va < USER_TOP && Translate(m.mem, 4, procs[k].dir, va).Small?
      modifies this, m
      ensures Touched(k) && procs == old(procs) && lost == old(lost)
      ensures View(m.mem, procs[k].dir) == Stored(old(View(m.mem, procs[k].dir)), va, b)
    {
      hide Tree, Frames, View, Space, Ownership, OthersSee, Translate;
      PartOf(m.mem, m.pmm.used, procs, base + lost, k);
      var p := procs[k];
      m.StoreByte(p.dir, va, b);
      Assign(old(m.mem), m.mem, old(m.pmm.used), m.pmm.used, procs, base + lost, k, p);
      assert procs[k := p] == procs;
    }

    /** The reaping tail of process_wait and sys_wait, and the teardown of a failed process_spawn. */
    method Reap(k: nat)
      requires Valid() && k in procs
      modifies this, m.pmm
      ensures Touched(k) && procs == old(procs) - {k} && lost == old(lost)
      ensures m.pmm.used == old(m.pmm.used) - old(Owned(m.mem, procs[k]))
    {
      hide Tree, Frames, View, Ownership, OthersSee;
      PartOf(m.mem, m.pmm.used, procs, base + lost, k);
      var p := procs[k];
      FreeProc(m, p);
      Release(m.mem, old(m.pmm.used), procs, base + lost, k);
      procs := procs - {k};
    }

    /** process_exec, or the loading half of process_spawn: builds a new stack and directory beside the
        old ones. When the file cannot be read (None) they are thrown away, otherwise the program is
        loaded into them and the old ones go. */
    method Exec(k: nat, x: Option<Executable>) returns (ok: bool)
      requires Valid() && k in procs && (x.Some? ==> WellFormed(x.value))
      modifies this, m, m.pmm
      ensures ok ==> Touched(k) && procs.Keys == old(procs.Keys)
      ensures ok && x.Some? ==>
                && ImagedBelowStack(map[], View(m.mem, procs[k].dir), x.value)
                && (lost == old(lost) <==> Clean(x.value))
      ensures ok && x.None? ==>
                && procs == old(procs) && m.pmm.used == old(m.pmm.used) && lost == old(lost)
                && View(m.mem, procs[k].dir) == old(View(m.mem, procs[k].dir))
      ensures !ok ==> Halted()
    {
      hide Tree, Frames, View, Space, Ownership, OthersSee, Owned, ProcOk, WellFormed, ImagedBelowStack, Clean;
      PartOf(m.mem, m.pmm.used, procs, base + lost, k);
      if x.Some? {
        ok := ExecLoaded(k, x.value);
      } else {
        var was := procs[k];
        var p := NewProc(m);
        if p.None? { return false; }
        IsolatedProc(old(m.mem), m.mem, was);
        FreeProc(m, p.value);
        assert m.pmm.used == old(m.pmm.used);
        Untouched(old(m.mem), m.mem, m.pmm.used, procs, base + lost);
        ok := true;
      }
    }

    method ExecLoaded(k: nat, x: Executable) returns (ok: bool)
      requires Valid() && k in procs && WellFormed(x)
      modifies this, m, m.pmm
      ensures ok ==> Touched(k) && procs.Keys == old(procs.Keys)
      ensures ok ==> ImagedBelowStack(map[], View(m.mem, procs[k].dir), x) && (lost == old(lost) <==> Clean(x))
      ensures !ok ==> Halted()
    {
      hide Tree, Frames, View, Space, Ownership, OthersSee, Owned, ProcOk, WellFormed, ImagedBelowStack, Clean;
      PartOf(m.mem, m.pmm.used, procs, base + lost, k);
      var p, gone := SwapImage(m, procs[k], x);
      if p.None? { return false; }
      AssignLossy(old(m.mem), m.mem, old(m.pmm.used), m.pmm.used, procs, base, lost, k, p.value, gone);
      procs := procs[k := p.value];
      lost := lost + gone;
      ok := true;
    }

    /** Carries out one operation; one that does not apply is skipped. False is the panic. */
    method Step(op: Op) returns (ok: bool)
      requires Valid()
      modifies this, m, m.pmm
      ensures ok ==> Touched(op.k) && (Thrifty(op) ==> lost == old(lost))
      ensures !ok ==> Halted()
    {
      hide Tree, Frames, View, Space, Ownership, Translate, WellFormed, Clean;
      ok := true;
      match op
      case CreateOp(k) =>
        if k !in procs { ok := Create(k); }
      case ForkOp(k, parent) =>
        if k !in procs && parent in procs { ok := Fork(parent, k); }
      case GrowOp(k, va, flags) =>
        if k in procs && va < USER_TOP && flags % 2 == 1 && Translate(m.mem, 4, procs[k].dir, va).Unmapped? {
          InSpace(m.mem, procs[k].dir, va);
          ok := Grow(k, va, flags);
        }
      case RemapOp(k, va, flags) =>
        if k in procs && va < USER_TOP && flags % 2 == 1 && Translate(m.mem, 4, procs[k].dir, va).Small? {
          ok := Grow(k, va, flags);
        }
      case StoreOp(k, va, b) =>
        if k in procs && va < USER_TOP && Translate(m.mem, 4, procs[k].dir, va).Small? {
          Store(k, va, b);
        }
      case ExecOp(k, x) =>
        if k in procs && (x.Some? ==> WellFormed(x.value)) { ok := Exec(k, x); }
      case ReapOp(k) =>
        if k in procs { Reap(k); }
    }

    /** Any mix of operations: every used frame keeps exactly one owner or is accounted for as lost,
        processes that no operation names keep their frames and memory, and if the operations leave
        behind no process and touch none of the old ones, the bitmap is what it was and the lost frames.
        Thrifty operations lose none. */
    method Run(ops: seq<Op>) returns (ok: bool)
      requires Valid()
      modifies this, m, m.pmm
      ensures ok ==> Valid() && m.pmm.Drift() == old(m.pmm.Drift()) && old(lost) <= lost
      ensures ok ==> OthersSee(old(m.mem), m.mem, old(procs), procs, Targets(ops))
      ensures ok && (forall i | 0 <= i < |ops| :: Thrifty(ops[i])) ==> lost == old(lost)
      ensures ok && procs == old(procs) && Targets(ops) !! procs.Keys ==>
                m.pmm.used - (base + lost) == old(m.pmm.used) - (base + old(lost))
      ensures ok && procs == old(procs) && Targets(ops) !! procs.Keys && lost == old(lost) ==>
                m.pmm.used == old(m.pmm.used)
      ensures !ok ==> Halted()
    {
      hide Tree, Frames, View, Space, Ownership, OthersSee, Targets, Thrifty;
      Untouched(m.mem, m.mem, m.pmm.used, procs, base + lost);
      TargetsNext(ops, 0);
      var i := 0;
      while i < |ops|
        invariant 0 <= i <= |ops| && Valid() && m.pmm.Drift() == old(m.pmm.Drift()) && old(lost) <= lost
        invariant (forall j | 0 <= j < i :: Thrifty(ops[j])) ==> lost == old(lost)
        invariant OthersSee(old(m.mem), m.mem, old(procs), procs, Targets(ops[..i]))
      {
        ghost var mem, was := m.mem, procs;
        ok := Step(ops[i]);
        if !ok { return; }
        OthersSeeTwice(old(m.mem), mem, m.mem, old(procs), was, procs, Targets(ops[..i]), {ops[i].k});
        TargetsNext(ops, i);
        i := i + 1;
      }
      assert ops[..i] == ops;
      if procs == old(procs) && Targets(ops) !! procs.Keys {
        Accounted(old(m.mem), m.mem, old(m.pmm.used), m.pmm.used, procs, base + old(lost), base + lost, Targets(ops));
        BaseUsed(m.mem, m.pmm.used, procs, base + lost);
        BaseUsed(old(m.mem), old(m.pmm.used), procs, base + old(lost));
        if lost == old(lost) { SameRest(m.pmm.used, old(m.pmm.used), base + lost); }
      }
      return true;
    }
  }

  lemma SameRest(a: set<nat>, b: set<nat>, base: set<nat>)
    requires base <= a && base <= b && a - base == b - base
    ensures a == b
  {
    assert a == a - base + base && b == b - base + base;
  }

  lemma BaseUsed(mem: Memory, used: set<nat>, procs: map<nat, Proc>, base: set<nat>)
    requires Ownership(mem, used, procs, base)
    ensures base <= used
  {
    hide Part, ProcOk;
  }

  datatype Op =
    | CreateOp(k: nat)
    | ForkOp(k: nat, parent: nat)
    | GrowOp(k: nat, va: nat, flags: nat)
    | RemapOp(k: nat, va: nat, flags: nat)
    | StoreOp(k: nat, va: nat, b: Byte)
    | ExecOp(k: nat, x: Option<Executable>)
    | ReapOp(k: nat)

  /** The operation loses no frame: it neither maps over a page nor loads a program that does. */
  ghost predicate Thrifty(op: Op) {
    !op.RemapOp? && (op.ExecOp? && op.x.Some? ==> Clean(op.x.value))
  }

  /** The processes a list of operations acts on. */
  ghost function Targets(ops: seq<Op>): set<nat> {
    set i | 0 <= i < |ops| :: ops[i].k
  }

  lemma TargetsNext(ops: seq<Op>, i: nat)
    requires i <= |ops|
    ensures Targets(ops[..0]) == {}
    ensures i < |ops| ==> Targets(ops[..i + 1]) == Targets(ops[..i]) + {ops[i].k}
  {
    if i < |ops| {
      forall k | k in Targets(ops[..i]) + {ops[i].k} ensures k in Targets(ops[..i + 1]) {
        if k == ops[i].k {
          assert ops[..i + 1][i].k == k;
        } else {
          var j :| 0 <= j < i && ops[..i][j].k == k;
          assert ops[..i + 1][j].k == k;
        }
      }
    }
  }
}
