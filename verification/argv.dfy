/** The argument block on the user stack (build_argv_stack in kernel/core/elf.c). */
module Argv {
  import opened Wrappers
  import opened Words
  import opened PageTables
  import opened Paging
  import opened UserMemory

  const MAX_ARGV_BLOCK_SIZE: nat := 2048
  const MAX_ARGV_COUNT: nat := 32
  const STACK: nat := 0x7FFF_FFFF_E000
  const TOP: nat := STACK + PAGE_SIZE

  /** C strings hold no NUL. */
  predicate CString(s: seq<Byte>) {
    forall i | 0 <= i < |s| :: s[i] != 0
  }

  predicate CStrings(argv: seq<seq<Byte>>) {
    forall i | 0 <= i < |argv| :: CString(argv[i])
  }

  /** The strings one after the other, each with its terminator. */
  function Blob(argv: seq<seq<Byte>>): seq<Byte> {
    if argv == [] then [] else argv[0] + [0] + Blob(argv[1..])
  }

  function RoundUp8(n: nat): nat {
    (n + 7) / 8 * 8
  }

  /** What the strings, the padding and the pointer array take. */
  function BlockSize(argv: seq<seq<Byte>>): nat {
    RoundUp8(|Blob(argv)|) + 8 * (|argv| + 1)
  }

  /** Address of string i: the strings end at the top of the page. */
  function StringAddr(argv: seq<seq<Byte>>, i: nat): int
    requires i <= |argv|
  {
    TOP - |Blob(argv[i..])|
  }

  function Pointers(addrs: seq<nat>): seq<Byte> {
    if addrs == [] then [] else Pointers(addrs[..|addrs| - 1]) + ToBytes(addrs[|addrs| - 1], 8)
  }

  lemma BlobStep(argv: seq<seq<Byte>>, i: nat)
    requires i < |argv|
    ensures Blob(argv[i..]) == argv[i] + [0] + Blob(argv[i + 1..])
  {
    assert argv[i..][1..] == argv[i + 1..];
  }

  lemma {:induction false} BlobSuffix(argv: seq<seq<Byte>>, i: nat)
    requires i <= |argv|
    ensures |Blob(argv[i..])| <= |Blob(argv)|
  {
    if i > 0 {
      BlobStep(argv, i - 1);
      BlobSuffix(argv, i - 1);
    } else {
      assert argv[0..] == argv;
    }
  }

  /** The bytes of the strings with their terminators. */
  function TextSize(argv: seq<seq<Byte>>): nat {
    if argv == [] then 0 else |argv[|argv| - 1]| + 1 + TextSize(argv[..|argv| - 1])
  }

  lemma {:induction false} TextSizeHead(argv: seq<seq<Byte>>)
    requires argv != []
    ensures TextSize(argv) == |argv[0]| + 1 + TextSize(argv[1..])
  {
    if |argv| > 1 {
      TextSizeHead(argv[..|argv| - 1]);
      assert argv[..|argv| - 1][1..] == argv[1..][..|argv| - 2];
    }
  }

  lemma {:induction false} BlobSize(argv: seq<seq<Byte>>)
    ensures |Blob(argv)| == TextSize(argv)
  {
    if argv != [] {
      BlobSize(argv[1..]);
      TextSizeHead(argv);
    }
  }

  /** The block: the text, up to 7 bytes that align the pointers to 8, and 8 bytes for each pointer and
      the NULL. */
  lemma BlockSizeIs(argv: seq<seq<Byte>>)
    ensures var text := BlockSize(argv) - 8 * (|argv| + 1);
            TextSize(argv) <= text < TextSize(argv) + 8 && text % 8 == 0
  {
    BlobSize(argv);
    hide Blob, TextSize;
  }

  // ---- reading the block back ----------------------------------------------

  /** Reading a NUL-terminated string of fewer than n bytes. */
  function ReadString(view: Pages, va: nat, n: nat): Option<seq<Byte>>
    decreases n
  {
    if n == 0 || ByteAt(view, va).None? then None
    else if ByteAt(view, va).value == 0 then Some([])
    else
      var rest := ReadString(view, va + 1, n - 1);
      if rest.None? then None else Some([ByteAt(view, va).value] + rest.value)
  }

  /** The n bytes at va. */
  function ReadBytes(view: Pages, va: nat, n: nat): Option<seq<Byte>> {
    if n == 0 then Some([])
    else
      var init := ReadBytes(view, va, n - 1);
      if init.None? || ByteAt(view, va + n - 1).None? then None
      else Some(init.value + [ByteAt(view, va + n - 1).value])
  }

  /** Following a NULL-terminated pointer array of at most n entries. */
  function ReadArgv(view: Pages, at: nat, n: nat): Option<seq<seq<Byte>>>
    decreases n
  {
    if n == 0 then None
    else
      var word := ReadBytes(view, at, 8);
      if word.None? then None
      else if FromBytes(word.value) == 0 then Some([])
      else
        var s := ReadString(view, FromBytes(word.value), PAGE_SIZE);
        var rest := ReadArgv(view, at + 8, n - 1);
        if s.None? || rest.None? then None else Some([s.value] + rest.value)
  }

  /** The bytes are in memory at va. */
  ghost predicate Holds(view: Pages, va: nat, bytes: seq<Byte>) {
    forall q: nat | va <= q < va + |bytes| :: ByteAt(view, q) == Some(bytes[q - va])
  }

  lemma PatchedHolds(v: Pages, v': Pages, lo: nat, bytes: seq<Byte>)
    requires Patched(v, v', lo, bytes)
    ensures Holds(v', lo, bytes)
  {
    hide ByteAt;
  }

  lemma HoldsPart(v: Pages, lo: nat, bytes: seq<Byte>, i: nat, j: nat)
    requires Holds(v, lo, bytes) && i <= j <= |bytes|
    ensures Holds(v, lo + i, bytes[i..j])
  {
    hide ByteAt;
  }

  lemma HoldsStill(v: Pages, v': Pages, lo: nat, bytes: seq<Byte>, at: nat, other: seq<Byte>)
    requires Holds(v, lo, bytes) && Patched(v, v', at, other) && at + |other| <= lo
    ensures Holds(v', lo, bytes)
  {
    hide ByteAt;
  }

  lemma {:induction false} StringReads(v: Pages, va: nat, s: seq<Byte>, n: nat)
    requires Holds(v, va, s + [0]) && CString(s) && |s| < n
    ensures ReadString(v, va, n) == Some(s)
    decreases |s|
  {
    hide ByteAt;
    assert ByteAt(v, va) == Some((s + [0])[0]);
    if s != [] {
      assert (s + [0])[1..|s| + 1] == s[1..] + [0];
      HoldsPart(v, va, s + [0], 1, |s| + 1);
      StringReads(v, va + 1, s[1..], n - 1);
      assert [s[0]] + s[1..] == s;
    }
  }

  lemma {:induction false} BytesRead(v: Pages, va: nat, bytes: seq<Byte>, n: nat)
    requires Holds(v, va, bytes) && n <= |bytes|
    ensures ReadBytes(v, va, n) == Some(bytes[..n])
  {
    hide ByteAt;
    if n > 0 {
      BytesRead(v, va, bytes, n - 1);
      assert ByteAt(v, va + n - 1) == Some(bytes[n - 1]);
      assert bytes[..n - 1] + [bytes[n - 1]] == bytes[..n];
    }
  }

  lemma WordReads(v: Pages, va: nat, w: nat)
    requires Holds(v, va, ToBytes(w, 8)) && w < TWO64
    ensures ReadBytes(v, va, 8).Some? && FromBytes(ReadBytes(v, va, 8).value) == w
  {
    hide FromBytes, ToBytes;
    BytesRead(v, va, ToBytes(w, 8), 8);
    assert ToBytes(w, 8)[..8] == ToBytes(w, 8);
    EightBytes();
    RoundTrip(w, 8);
  }

  /** Entry i of the array points at a copy of string i, up to the NULL after the last. */
  ghost predicate Laid(v: Pages, at: nat, addrs: seq<nat>, argv: seq<seq<Byte>>)
    requires |addrs| == |argv|
  {
    && (forall i | 0 <= i < |argv| :: Holds(v, at + 8 * i, ToBytes(addrs[i], 8)))
    && Holds(v, at + 8 * |argv|, ToBytes(0, 8))
    && (forall i | 0 <= i < |argv| :: 0 < addrs[i] < TWO64 && |argv[i]| < PAGE_SIZE && Holds(v, addrs[i], argv[i] + [0]))
  }

  lemma {:induction false} LaidReads(v: Pages, at: nat, addrs: seq<nat>, argv: seq<seq<Byte>>, i: nat, n: nat)
    requires |addrs| == |argv| && Laid(v, at, addrs, argv) && CStrings(argv) && i <= |argv| < n + i
    ensures ReadArgv(v, at + 8 * i, n) == Some(argv[i..])
    decreases |argv| - i
  {
    hide ByteAt, ReadString, ReadBytes, FromBytes, ToBytes, Holds;
    if i == |argv| {
      WordReads(v, at + 8 * i, 0);
    } else {
      WordReads(v, at + 8 * i, addrs[i]);
      StringReads(v, addrs[i], argv[i], PAGE_SIZE);
      LaidReads(v, at, addrs, argv, i + 1, n - 1);
      assert at + 8 * (i + 1) == at + 8 * i + 8;
      assert [argv[i]] + argv[i + 1..] == argv[i..];
    }
  }

  // ---- the layout ----------------------------------------------------------

  lemma {:induction false} BlobAt(argv: seq<seq<Byte>>, i: nat)
    requires i <= |argv|
    ensures |Blob(argv[i..])| <= |Blob(argv)|
    ensures Blob(argv)[|Blob(argv)| - |Blob(argv[i..])|..] == Blob(argv[i..])
  {
    if i > 0 {
      BlobStep(argv, i - 1);
      BlobAt(argv, i - 1);
      var all, here, next := Blob(argv), Blob(argv[i - 1..]), Blob(argv[i..]);
      assert here[|here| - |next|..] == next;
      assert all[|all| - |here|..][|here| - |next|..] == all[|all| - |next|..];
    } else {
      assert argv[0..] == argv;
    }
  }

  lemma {:induction false} PointerAt(addrs: seq<nat>, i: nat)
    requires i < |addrs|
    ensures |Pointers(addrs)| == 8 * |addrs|
    ensures Pointers(addrs)[8 * i..8 * i + 8] == ToBytes(addrs[i], 8)
  {
    hide ToBytes;
    var n := |addrs| - 1;
    PointersLength(addrs[..n]);
    if i < n {
      PointerAt(addrs[..n], i);
      assert Pointers(addrs)[8 * i..8 * i + 8] == Pointers(addrs[..n])[8 * i..8 * i + 8];
    }
  }

  lemma {:induction false} PointersLength(addrs: seq<nat>)
    ensures |Pointers(addrs)| == 8 * |addrs|
  {
    if addrs != [] { PointersLength(addrs[..|addrs| - 1]); }
  }

  /** The addresses of the strings from i on. */
  ghost predicate Addressed(argv: seq<seq<Byte>>, i: nat, addrs: seq<nat>) {
    && i <= |argv| && |addrs| == |argv| - i
    && forall k | 0 <= k < |addrs| :: addrs[k] == StringAddr(argv, i + k)
  }

  lemma LaidOut(v0: Pages, v1: Pages, v2: Pages, argv: seq<seq<Byte>>, addrs: seq<nat>, at: nat)
    requires |Blob(argv)| <= MAX_ARGV_BLOCK_SIZE && Addressed(argv, 0, addrs)
    requires Patched(v0, v1, TOP - |Blob(argv)|, Blob(argv)) && Patched(v1, v2, at, Pointers(addrs + [0]))
    requires at + 8 * (|argv| + 1) <= TOP - |Blob(argv)|
    ensures Laid(v2, at, addrs, argv)
  {
    hide ByteAt, Patched, Blob, Pointers, ToBytes, Holds;
    var lo, ptrs := TOP - |Blob(argv)|, addrs + [0];
    PointersLength(ptrs);
    PatchedHolds(v0, v1, lo, Blob(argv));
    HoldsStill(v1, v2, lo, Blob(argv), at, Pointers(ptrs));
    PatchedHolds(v1, v2, at, Pointers(ptrs));
    forall i | 0 <= i <= |argv| ensures Holds(v2, at + 8 * i, ToBytes(ptrs[i], 8)) {
      PointerAt(ptrs, i);
      HoldsPart(v2, at, Pointers(ptrs), 8 * i, 8 * i + 8);
    }
    assert Holds(v2, at + 8 * |argv|, ToBytes(ptrs[|argv|], 8));
    forall i | 0 <= i < |argv|
      ensures Holds(v2, at + 8 * i, ToBytes(addrs[i], 8))
      ensures 0 < addrs[i] < TWO64 && |argv[i]| < PAGE_SIZE && Holds(v2, addrs[i], argv[i] + [0])
    {
      assert Holds(v2, at + 8 * i, ToBytes(ptrs[i], 8));
      StringLaid(v2, argv, i);
      assert addrs[i] == StringAddr(argv, 0 + i);
    }
  }

  lemma StringLaid(v: Pages, argv: seq<seq<Byte>>, i: nat)
    requires i < |argv| && |Blob(argv)| <= MAX_ARGV_BLOCK_SIZE && Holds(v, TOP - |Blob(argv)|, Blob(argv))
    ensures TOP - MAX_ARGV_BLOCK_SIZE <= StringAddr(argv, i) && |argv[i]| < MAX_ARGV_BLOCK_SIZE
    ensures Holds(v, StringAddr(argv, i), argv[i] + [0])
  {
    hide Blob, Holds;
    var all, here := Blob(argv), Blob(argv[i..]);
    BlobAt(argv, i);
    BlobStep(argv, i);
    var off, n := |all| - |here|, |argv[i]| + 1;
    assert all[off..off + n] == all[off..][..n] == here[..n] == argv[i] + [0];
    HoldsPart(v, TOP - |all|, all, off, off + n);
  }

  // ---- building it ---------------------------------------------------------

  /** Bytes outside the block are as before. */
  ghost predicate Below(view: Pages, view': Pages) {
    forall q: nat | !(TOP - MAX_ARGV_BLOCK_SIZE <= q < TOP) :: ByteAt(view', q) == ByteAt(view, q)
  }

  lemma PatchedBelow(v: Pages, v': Pages, lo: nat, bytes: seq<Byte>)
    requires Patched(v, v', lo, bytes) && TOP - MAX_ARGV_BLOCK_SIZE <= lo && lo + |bytes| <= TOP
    ensures Below(v, v')
  {
    hide ByteAt;
  }

  lemma InStack(va: nat)
    requires STACK <= va < TOP
    ensures va / 4096 == STACK / 4096 && va % 4096 == va - STACK
  {
  }

  /** Writing within the stack page. */
  method WriteStack(m: Machine, root: nat, va: nat, bytes: seq<Byte>)
    requires Ready(m, root) && Covered(View(m.mem, root), STACK, TOP) && STACK <= va < TOP && va + |bytes| <= TOP
    modifies m`mem
    ensures Ready(m, root) && Apart(m, root) && Exact(m, root) && Covered(View(m.mem, root), STACK, TOP)
    ensures Patched(old(View(m.mem, root)), View(m.mem, root), va, bytes)
    ensures SameFlags(old(View(m.mem, root)), View(m.mem, root))
  {
    hide Tree, Frames, View, Plain, Patched, SameFlags, Covered;
    ghost var view := View(m.mem, root);
    CoveredHere(view, STACK, va, TOP);
    InStack(va);
    WritePage(m, root, va, bytes);
    StillCovered(view, View(m.mem, root), STACK, TOP);
  }

  /** The loop that places the strings, from the last one down. */
  method PlaceStrings(m: Machine, root: nat, argv: seq<seq<Byte>>) returns (ok: bool, cursor: nat, addrs: seq<nat>)
    requires Ready(m, root) && Covered(View(m.mem, root), STACK, TOP)
    modifies m`mem
    ensures Ready(m, root) && Apart(m, root) && Exact(m, root) && Covered(View(m.mem, root), STACK, TOP)
    ensures SameFlags(old(View(m.mem, root)), View(m.mem, root)) && Below(old(View(m.mem, root)), View(m.mem, root))
    ensures ok <==> |Blob(argv)| <= MAX_ARGV_BLOCK_SIZE
    ensures ok ==> cursor == TOP - |Blob(argv)| && Addressed(argv, 0, addrs)
    ensures ok ==> Patched(old(View(m.mem, root)), View(m.mem, root), cursor, Blob(argv))
  {
    hide Tree, Frames, View, Plain, Patched, SameFlags, Covered, Below, Addressed, Blob;
    ghost var view := View(m.mem, root);
    var i: nat := |argv|;
    cursor, addrs := TOP, [];
    NoStrings(view, argv);
    while i > 0
      invariant i <= |argv| && Ready(m, root) && Apart(m, root) && Exact(m, root)
      invariant Covered(View(m.mem, root), STACK, TOP) && SameFlags(view, View(m.mem, root))
      invariant |Blob(argv[i..])| <= MAX_ARGV_BLOCK_SIZE && cursor == TOP - |Blob(argv[i..])|
      invariant Addressed(argv, i, addrs)
      invariant Patched(view, View(m.mem, root), cursor, Blob(argv[i..]))
    {
      i := i - 1;
      BlobStep(argv, i);
      BlobSuffix(argv, i);
      var len := |argv[i]| + 1;
      if TOP - (cursor - len) > MAX_ARGV_BLOCK_SIZE {
        PatchedBelow(view, View(m.mem, root), cursor, Blob(argv[i + 1..]));
        return false, cursor, [];
      }
      ghost var mid := View(m.mem, root);
      WriteStack(m, root, cursor - len, argv[i] + [0]);
      PatchDown(view, mid, View(m.mem, root), cursor, Blob(argv[i + 1..]), argv[i] + [0]);
      FlagsKept(view, mid, View(m.mem, root));
      cursor := cursor - len;
      NextAddress(argv, i, addrs, cursor);
      addrs := [cursor] + addrs;
    }
    assert argv[0..] == argv;
    PatchedBelow(view, View(m.mem, root), cursor, Blob(argv));
    ok := true;
  }

  lemma NoStrings(view: Pages, argv: seq<seq<Byte>>)
    ensures Blob(argv[|argv|..]) == [] && Addressed(argv, |argv|, [])
    ensures Patched(view, view, TOP, []) && SameFlags(view, view)
  {
  }

  lemma NextAddress(argv: seq<seq<Byte>>, i: nat, addrs: seq<nat>, cursor: nat)
    requires i < |argv| && Addressed(argv, i + 1, addrs) && cursor == StringAddr(argv, i)
    ensures Addressed(argv, i, [cursor] + addrs)
  {
    hide StringAddr;
    var all := [cursor] + addrs;
    forall k | 0 <= k < |all| ensures all[k] == StringAddr(argv, i + k) {
      if k > 0 { assert addrs[k - 1] == StringAddr(argv, i + 1 + (k - 1)); }
    }
  }

  /** The loop that writes the pointer array and its NULL. */
  method PlacePointers(m: Machine, root: nat, at: nat, addrs: seq<nat>)
    requires Ready(m, root) && Covered(View(m.mem, root), STACK, TOP)
    requires STACK <= at && at + 8 * (|addrs| + 1) <= TOP
    modifies m`mem
    ensures Ready(m, root) && Apart(m, root) && Exact(m, root)
    ensures SameFlags(old(View(m.mem, root)), View(m.mem, root))
    ensures Patched(old(View(m.mem, root)), View(m.mem, root), at, Pointers(addrs + [0]))
  {
    hide Tree, Frames, View, Plain, Patched, SameFlags, Covered, Pointers, ToBytes;
    ghost var view := View(m.mem, root);
    ghost var ptrs := addrs + [0];
    NoPointers(view, ptrs, at);
    for i := 0 to |addrs|
      invariant Ready(m, root) && Apart(m, root) && Exact(m, root)
      invariant Covered(View(m.mem, root), STACK, TOP) && SameFlags(view, View(m.mem, root))
      invariant Patched(view, View(m.mem, root), at, Pointers(ptrs[..i]))
    {
      ghost var mid := View(m.mem, root);
      WriteStack(m, root, at + 8 * i, ToBytes(addrs[i], 8));
      NextPointer(view, mid, View(m.mem, root), at, ptrs, i);
    }
    ghost var mid := View(m.mem, root);
    WriteStack(m, root, at + 8 * |addrs|, ToBytes(0, 8));
    NextPointer(view, mid, View(m.mem, root), at, ptrs, |addrs|);
    assert ptrs[..|addrs| + 1] == ptrs;
  }

  lemma NoPointers(view: Pages, ptrs: seq<nat>, at: nat)
    ensures Pointers(ptrs[..0]) == [] && Patched(view, view, at, []) && SameFlags(view, view)
  {
  }

  lemma NextPointer(v0: Pages, v1: Pages, v2: Pages, at: nat, ptrs: seq<nat>, i: nat)
    requires i < |ptrs| && Patched(v0, v1, at, Pointers(ptrs[..i])) && SameFlags(v0, v1)
    requires Patched(v1, v2, at + 8 * i, ToBytes(ptrs[i], 8)) && SameFlags(v1, v2)
    ensures Patched(v0, v2, at, Pointers(ptrs[..i + 1])) && SameFlags(v0, v2)
  {
    assert ptrs[..i + 1][..i] == ptrs[..i];
    hide Patched, SameFlags, ToBytes;
    PointersLength(ptrs[..i]);
    PatchUp(v0, v1, v2, at, Pointers(ptrs[..i]), ToBytes(ptrs[i], 8));
    FlagsKept(v0, v1, v2);
  }

  lemma Rounded8(n: nat)
    ensures (TOP - n) / 8 * 8 == TOP - RoundUp8(n) && n <= RoundUp8(n)
  {
  }

  lemma Aligned(n: nat, argc: nat)
    ensures (TOP - (RoundUp8(n) + 8 * (argc + 1))) % 8 == 0
  {
    var k := (n + 7) / 8 + argc + 1;
    assert TOP - (RoundUp8(n) + 8 * (argc + 1)) == 8 * (TOP / 8 - k);
  }

  /** build_argv_stack: it succeeds exactly when there are arguments, few enough and small enough, and
      then a program that follows the pointers at the new stack top finds its arguments. */
  method BuildArgv(m: Machine, root: nat, argv: seq<seq<Byte>>) returns (r: Option<(nat, nat)>)
    requires Ready(m, root) && Covered(View(m.mem, root), STACK, TOP) && CStrings(argv)
    modifies m`mem
    ensures Ready(m, root) && Apart(m, root) && Exact(m, root)
    ensures SameFlags(old(View(m.mem, root)), View(m.mem, root)) && Below(old(View(m.mem, root)), View(m.mem, root))
    ensures r.Some? <==> 1 <= |argv| <= 31 && BlockSize(argv) <= 2048
    ensures r.Some? ==>
              var (argc, top) := r.value;
              && argc == |argv| && top == TOP - BlockSize(argv) && top % 8 == 0
              && ReadArgv(View(m.mem, root), top, MAX_ARGV_COUNT) == Some(argv)
              && exists addrs :: Addressed(argv, 0, addrs) && |addrs| == |argv| && Laid(View(m.mem, root), top, addrs, argv)
  {
    hide Tree, Frames, View, Plain, Patched, SameFlags, Covered, Below, Blob, Pointers, Laid, CStrings, ReadArgv, RoundUp8, Addressed;
    ghost var v0 := View(m.mem, root);
    PatchedSelf(v0);
    if |argv| == 0 { return None; }
    var argc := 0;
    while argc < |argv|
      invariant argc <= |argv| && argc < MAX_ARGV_COUNT
    {
      argc := argc + 1;
      if argc >= MAX_ARGV_COUNT { return None; }
    }
    Rounded8(|Blob(argv)|);
    var ok, cursor, addrs := PlaceStrings(m, root, argv);
    if !ok { return None; }
    ghost var v1 := View(m.mem, root);
    cursor := cursor / 8 * 8;
    var pointerBytes := (argc + 1) * 8;
    if TOP - (cursor - pointerBytes) > MAX_ARGV_BLOCK_SIZE { return None; }
    cursor := cursor - pointerBytes;
    AddressCount(argv, addrs);
    PlacePointers(m, root, cursor, addrs);
    Built(v0, v1, View(m.mem, root), argv, addrs, cursor);
    r := Some((argc, cursor));
  }

  lemma PatchedSelf(v: Pages)
    ensures SameFlags(v, v) && Below(v, v)
  {
  }

  lemma AddressCount(argv: seq<seq<Byte>>, addrs: seq<nat>)
    requires Addressed(argv, 0, addrs)
    ensures |addrs| == |argv|
  {
  }

  lemma BelowTwice(v0: Pages, v1: Pages, v2: Pages)
    requires Below(v0, v1) && Below(v1, v2)
    ensures Below(v0, v2)
  {
    hide ByteAt;
  }

  lemma Built(v0: Pages, v1: Pages, v2: Pages, argv: seq<seq<Byte>>, addrs: seq<nat>, at: nat)
    requires |argv| < MAX_ARGV_COUNT && CStrings(argv) && Addressed(argv, 0, addrs)
    requires BlockSize(argv) <= MAX_ARGV_BLOCK_SIZE && at == TOP - BlockSize(argv)
    requires Patched(v0, v1, TOP - |Blob(argv)|, Blob(argv)) && SameFlags(v0, v1) && Below(v0, v1)
    requires Patched(v1, v2, at, Pointers(addrs + [0])) && SameFlags(v1, v2)
    ensures |addrs| == |argv| && Laid(v2, at, addrs, argv)
    ensures ReadArgv(v2, at, MAX_ARGV_COUNT) == Some(argv)
    ensures SameFlags(v0, v2) && Below(v0, v2) && at % 8 == 0
  {
    hide Patched, SameFlags, Below, Blob, Pointers, Laid, ReadArgv, Addressed, CStrings, RoundUp8;
    Rounded8(|Blob(argv)|);
    Aligned(|Blob(argv)|, |argv|);
    AddressCount(argv, addrs);
    PointersLength(addrs + [0]);
    LaidOut(v0, v1, v2, argv, addrs, at);
    LaidReads(v2, at, addrs, argv, 0, MAX_ARGV_COUNT);
    assert argv[0..] == argv;
    PatchedBelow(v1, v2, at, Pointers(addrs + [0]));
    BelowTwice(v0, v1, v2);
    FlagsKept(v0, v1, v2);
  }

  /** The strings follow one another up to the top of the page, and the pointer array ends below them. */
  lemma {:induction false} PiecesDisjoint(argv: seq<seq<Byte>>, i: nat, j: nat)
    requires i < j <= |argv|
    ensures StringAddr(argv, i) + |argv[i]| + 1 <= StringAddr(argv, j)
    ensures StringAddr(argv, |argv|) == TOP
    ensures TOP - BlockSize(argv) + 8 * (|argv| + 1) <= StringAddr(argv, 0)
    decreases j - i
  {
    BlobStep(argv, i);
    assert argv[|argv|..] == [] && argv[0..] == argv;
    Rounded8(|Blob(argv)|);
    if i + 1 < j { PiecesDisjoint(argv, i + 1, j); }
  }
}
