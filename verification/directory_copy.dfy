/** The value-level argument behind paging_deep_copy_directory: copying entry by entry builds a
    disjoint tree through which every address looks the same. */
module DirectoryCopy {
  import opened PageTables

  /** Two walks with the same outcome up to the frame number, ending in pages of equal contents. */
  predicate SameLook(mem: Memory, a: Walk, b: Walk) {
    match a
    case Unmapped(_) => b == a
    case Small(e, r) =>
      b.Small? && b.rights == r && b.e == e.(frame := b.e.frame) && e.frame < |mem| && b.e.frame < |mem| && mem[b.e.frame] == mem[e.frame]
    case Huge(_, _) => b == a
  }

  /** Addresses under the first n entries look the same through dst as through src. */
  ghost predicate CopiedUpTo(mem: Memory, level: nat, src: nat, dst: nat, n: nat)
    requires 1 <= level <= 4
  {
    forall va: nat | Index(level, va) < n :: SameLook(mem, Translate(mem, level, src, va), Translate(mem, level, dst, va))
  }

  /** The shared upper half of a top-level table. */
  function KernelHalf(mem: Memory, root: nat): seq<Entry> {
    seq(256, k requires 0 <= k < 256 => EntryAt(mem, root, 256 + k))
  }

  /** The state at the head of the copy loop for entry i: the entries below i are copied and the
      rest of dst is empty. */
  ghost predicate Copying(mem: Memory, used: set<nat>, level: nat, src: nat, dst: nat, i: nat)
    requires 1 <= level <= 4
  {
    && Tree(mem, level, src) && Frames(mem, level, src) <= used - {dst}
    && Tree(mem, level, dst) && Frames(mem, level, dst) <= used && Frames(mem, level, dst) !! Frames(mem, level, src)
    && i <= Span(level) && CopiedUpTo(mem, level, src, dst, i)
    && forall k: nat | i <= k < Span(level) :: EntryAt(mem, dst, k) == EMPTY
  }

  /** Entry i of dst was set and a subtree on new frames hung below it; used frames other than dst
      kept their contents. */
  ghost predicate KidCopied(mem: Memory, mem': Memory, used: set<nat>, level: nat, src: nat, dst: nat, i: nat)
    requires 1 <= level <= 4
  {
    && |mem| == |mem'| && IsTable(mem', dst)
    && (forall f | f in used && f != dst :: f < |mem| ==> mem'[f] == mem[f])
    && (forall k: nat | k < 512 && k != i :: EntryAt(mem', dst, k) == EntryAt(mem, dst, k))
    && KidOk(mem', level, EntryAt(mem', dst, i))
    && Kid(mem', level, dst, i) !! used
    && forall va: nat | Index(level, va) == i ::
         SameLook(mem', Translate(mem', level, src, va), Translate(mem', level, dst, va))
  }

  lemma {:induction false} CopyStep(mem: Memory, mem': Memory, used: set<nat>, level: nat, src: nat, dst: nat, i: nat)
    requires 1 <= level <= 4 && i < Span(level)
    requires Copying(mem, used, level, src, dst, i) && KidCopied(mem, mem', used, level, src, dst, i)
    ensures Copying(mem', used + Kid(mem', level, dst, i), level, src, dst, i + 1)
    ensures Frames(mem', level, dst) == Frames(mem, level, dst) + Kid(mem', level, dst, i)
    ensures Frames(mem', level, src) == Frames(mem, level, src)
    ensures level == 4 ==> KernelHalf(mem', dst) == KernelHalf(mem, dst)
  {
    hide Tree, Frames, Kid, Translate;
    DstStep(mem, mem', used, level, src, dst, i);
    Local(mem, mem', level, src);
    forall va: nat | Index(level, va) < i + 1
      ensures SameLook(mem', Translate(mem', level, src, va), Translate(mem', level, dst, va))
    {
      if Index(level, va) < i {
        LeafOwned(mem, level, src, va);
        LeafOwned(mem, level, dst, va);
      }
    }
  }

  lemma {:induction false} DstStep(mem: Memory, mem': Memory, used: set<nat>, level: nat, src: nat, dst: nat, i: nat)
    requires 1 <= level <= 4 && i < Span(level)
    requires Copying(mem, used, level, src, dst, i) && KidCopied(mem, mem', used, level, src, dst, i)
    ensures Tree(mem', level, dst)
    ensures Frames(mem', level, dst) == Frames(mem, level, dst) + Kid(mem', level, dst, i)
    ensures forall va: nat | Index(level, va) < i :: Translate(mem', level, dst, va) == Translate(mem, level, dst, va)
  {
    hide Translate, Index, SameLook;
    assert Kid(mem, level, dst, i) == {};
    assert dst in Frames(mem, level, dst);
    forall k: nat | k < Span(level) && k != i
      ensures Kid(mem, level, dst, k) <= used - {dst}
    {
      KidInFrames(mem, level, dst, k);
    }
    ReplaceKid(mem, mem', level, dst, i);
  }

  // ---------- The branches of the loop body ----------

  /** An absent entry is skipped; a 2MB entry is shared. */
  lemma {:induction false} ShareKid(mem: Memory, mem': Memory, used: set<nat>, level: nat, src: nat, dst: nat, i: nat)
    requires 1 <= level <= 4 && i < Span(level) && Copying(mem, used, level, src, dst, i)
    requires var e := EntryAt(mem, src, i);
             if !e.present then mem' == mem else level == 2 && e.huge && mem' == SetEntry(mem, dst, i, e)
    ensures KidCopied(mem, mem', used, level, src, dst, i) && Kid(mem', level, dst, i) == {}
  {
    SrcEntry(mem, used, level, src, dst, i);
    assert EntryAt(mem', src, i) == EntryAt(mem, src, i);
  }

  lemma SrcEntry(mem: Memory, used: set<nat>, level: nat, src: nat, dst: nat, i: nat)
    requires 1 <= level <= 4 && i < Span(level) && Copying(mem, used, level, src, dst, i)
    ensures src in used && src != dst && dst in used && IsTable(mem, src) && IsTable(mem, dst)
    ensures var e := EntryAt(mem, src, i);
            Owns(level, e) ==>
              && e.frame in used && e.frame != dst
              && (if level == 1 then IsPage(mem, e.frame)
                  else Tree(mem, level - 1, e.frame) && Frames(mem, level - 1, e.frame) <= used - {dst})
  {
    assert src in Frames(mem, level, src) && dst in Frames(mem, level, dst);
    assert KidOk(mem, level, EntryAt(mem, src, i));
    KidInFrames(mem, level, src, i);
    if Owns(level, EntryAt(mem, src, i)) {
      assert EntryAt(mem, src, i).frame in Kid(mem, level, src, i);
    }
  }

  /** A 4KB page is copied byte for byte into a new frame. */
  lemma {:induction false} CopyPage(mem: Memory, mem': Memory, used: set<nat>, src: nat, dst: nat, i: nat, c: nat)
    requires i < 512 && Copying(mem, used, 1, src, dst, i) && EntryAt(mem, src, i).present
    requires c < |mem| && c !in used
    requires EntryAt(mem, src, i).frame < |mem| && IsTable(mem, dst) && dst != c
    requires var e := EntryAt(mem, src, i);
             mem' == SetEntry(mem[c := mem[e.frame]], dst, i, e.(frame := c))
    ensures KidCopied(mem, mem', used, 1, src, dst, i) && Kid(mem', 1, dst, i) == {c}
  {
    SrcEntry(mem, used, 1, src, dst, i);
    assert EntryAt(mem', src, i) == EntryAt(mem, src, i);
  }

  /** A table is copied by copying what hangs below it. */
  lemma {:induction false} CopyTable(mem: Memory, mem': Memory, used: set<nat>, used': set<nat>,
                                     level: nat, src: nat, dst: nat, i: nat, c: nat)
    requires 2 <= level <= 4 && i < Span(level) && Copying(mem, used, level, src, dst, i)
    requires Owns(level, EntryAt(mem, src, i)) && |mem| == |mem'|
    requires IsTable(mem, dst) && dst < |mem'|
    requires var e := EntryAt(mem, src, i);
             && mem'[dst] == Table(mem[dst].entries[i := e.(frame := c)])
             && Copying(mem', used', level - 1, e.frame, c, 512) && Frames(mem', level - 1, c) !! used
    requires forall f | f in used && f != dst :: f < |mem| ==> mem'[f] == mem[f]
    ensures KidCopied(mem, mem', used, level, src, dst, i)
    ensures Kid(mem', level, dst, i) == Frames(mem', level - 1, c)
  {
    hide Tree, Frames;
    SrcEntry(mem, used, level, src, dst, i);
    assert EntryAt(mem', src, i) == EntryAt(mem, src, i);
  }

  /** A finished copy shows every page of the source, and shares no frame with it. */
  lemma {:induction false} CopyShows(mem: Memory, used: set<nat>, src: nat, dst: nat)
    requires Copying(mem, used, 4, src, dst, 256)
    ensures Tree(mem, 4, dst)
    ensures View(mem, dst) == View(mem, src)
    ensures AllOpen(mem, src) ==> AllOpen(mem, dst)
  {
    hide Tree, Frames, Kid, Translate, Index;
    forall va: nat | va < USER_TOP
      ensures Translate(mem, 4, dst, va).rights == Translate(mem, 4, src, va).rights
    {
      UserIndex(va);
    }
    forall p: nat | p < USER_PAGES
      ensures SameLook(mem, Translate(mem, 4, src, p * 4096), Translate(mem, 4, dst, p * 4096))
    {
      PageIndex(p);
    }
  }
}
