/** Inputs on which the kernel does less than one would expect: each exact condition of the
    other modules fails somewhere real. */
module Witnesses {
  import opened Words
  import opened RegionTable
  import opened RegionLaws
  import opened AllocatorRuns
  import opened Pmm
  import opened PageWalk
  import opened PageMapping
  import opened CallSteps
  import opened MapConditions
  import opened TlbFlush
  import opened KernelMemory

  // ---------------------------------------------------------------- requests

  /** A request for no pages, or for 2^52 of them, is granted as an empty entry, and the table is
      no longer valid. */
  lemma {:induction false} EmptyRequest() returns (t: Table)
    ensures PageBytes(0) == 0 && PageBytes(0x10_0000_0000_0000) == 0
    ensures Booted(t) && Taken(t, 0) && !Valid(Alloc(t, 0))
  {
    t := [Region(0x1000, 0x1000, true)];
    assert FirstFit(t, 0) == 0;
    AllocValidIff(t, 0);
  }

  /** A block at physical address 0 is taken and reported as a failure: its page is lost. */
  lemma {:induction false} PageZeroIsLost() returns (t: Table)
    ensures Valid(t) && Taken(t, PAGE_SIZE) && AllocAddress(t, PAGE_SIZE) == 0
    ensures FreeByte(t, 0) && !FreeByte(Alloc(t, PAGE_SIZE), 0)
  {
    t := [Region(0, 0x1000, true)];
    assert FirstFit(t, PAGE_SIZE) == 0;
    AllocExact(t, PAGE_SIZE);
    assert t[0].Covers(0);
  }

  // ---------------------------------------------------------------- missing tables

  lemma {:induction false} EmptyRootTab(m: Memory, root: nat, p: seq<nat>)
    requires ZeroFrame(m, root) && IsPath(p)
    ensures Tab(m, root, p) == if p == [] then At(root) else Absent
    decreases |p|
  {
    if p != [] { EmptyRootTab(m, root, p[..|p| - 1]); }
  }

  lemma {:induction false} EmptyRootInv(w: World, root: nat)
    requires Sane(w) && ZeroFrame(w.mem, root) && ENTRIES * root + ENTRIES <= |w.mem| && FrameInUse(w.table, root)
    ensures Inv(w, root)
    ensures forall p :: IsPath(p) && Tab(w.mem, root, p).At? ==> p == []
  {
    forall p | IsPath(p)
      ensures Tab(w.mem, root, p) == if p == [] then At(root) else Absent
    {
      EmptyRootTab(w.mem, root, p);
    }
  }

  /** The allocator grants the second of two pages too. */
  lemma {:induction false} TwoPages(t: Table)
    requires t == [Region(0x1000, 0x2000, true)]
    ensures Taken(t, PAGE_SIZE) && Taken(Alloc(t, PAGE_SIZE), PAGE_SIZE)
  {
    assert FirstFit(t, PAGE_SIZE) == 0;
    var u := Alloc(t, PAGE_SIZE);
    assert u == [Region(0x1000, 0x1000, false), Region(0x2000, 0x1000, true)];
    FirstFitIs(u, PAGE_SIZE, 1, 0);
  }

  /** Four zeroed frames, the root in the first, two of the others free: a 2 MiB call completes
      and does not map its block. A second call finds both upper entries present, completes
      and does not map it either. */
  lemma {:induction false} HugeCallFails() returns (w: World, virt: Word, flags: Word)
    ensures Inv(w, 0) && Present(flags) && Large(flags) && NoLarge(w.mem, 0, 3, 1, PageOf(virt))
    ensures var (w1, done) := MapHuge(w, 0, virt, 0, flags);
            && done && !BlockUpdated(w.mem, w1.mem, 0, PageOf(virt), 0, flags)
            && Inv(w1, 0) && Missing(w1.mem, 0, 3, 1, PageOf(virt)) == 0
            && MapHuge(w1, 0, virt, 0, flags).1
            && !BlockUpdated(w1.mem, MapHuge(w1, 0, virt, 0, flags).0.mem, 0, PageOf(virt), 0, flags)
  {
    virt, flags := 0, 0x83;
    w := World(seq(2048, _ => 0), [Region(0x1000, 0x2000, true)]);
    EmptyRootInv(w, 0);
    TwoPages(w.table);
    TwoCalls(w, 0, virt, flags);
  }

  lemma {:induction false} TwoCalls(w: World, root: nat, virt: Word, flags: Word)
    requires Inv(w, root) && ZeroFrame(w.mem, root) && Present(flags) && Large(flags)
    requires Taken(w.table, PAGE_SIZE) && Taken(Alloc(w.table, PAGE_SIZE), PAGE_SIZE)
    ensures NoLarge(w.mem, root, 3, 1, PageOf(virt))
    ensures var (w1, done) := MapHuge(w, root, virt, 0, flags);
            && done && !BlockUpdated(w.mem, w1.mem, root, PageOf(virt), 0, flags)
            && Inv(w1, root) && Missing(w1.mem, root, 3, 1, PageOf(virt)) == 0
            && MapHuge(w1, root, virt, 0, flags).1
            && !BlockUpdated(w1.mem, MapHuge(w1, root, virt, 0, flags).0.mem, root, PageOf(virt), 0, flags)
  {
    TwoLinks(w, root, virt, flags);
    assert EntryAt(w.mem, root, Index(virt, 3)) == 0;
    IndexDigit(virt, 3);
    NoLargePassable(w.mem, root, root, 3, 1, PageOf(virt));
    MapHugeIff(w, root, virt, 0, flags);
    MalformedRootStays(w, root, virt, 0, flags, virt, 0, flags);
    assert SameLeaf(PageOf(virt), PageOf(virt), 1);
  }

  lemma {:induction false} TwoLinks(w: World, root: nat, virt: Word, flags: Word)
    requires Inv(w, root) && ZeroFrame(w.mem, root) && Present(flags) && Large(flags)
    requires Taken(w.table, PAGE_SIZE) && Taken(Alloc(w.table, PAGE_SIZE), PAGE_SIZE)
    ensures MapHuge(w, root, virt, 0, flags).1
  {
    var page := PageOf(virt);
    assert EntryAt(w.mem, root, Digit(page, 3)) == 0;
    MapHugeLevels(w, root, virt, 0, flags);
    MapFromStep(w, 0, root, 1, page, MakeHugeEntry(0, flags), flags);
    TakePageKeeps(w, root);
    RootLink(w, root, page, flags);
    var (w3, t3) := EnsureTable(w, root, Digit(page, 3), flags);
    assert w3.table == Alloc(w.table, PAGE_SIZE);
    SecondDone(w3, t3.frame, page, MakeHugeEntry(0, flags), flags);
  }

  lemma {:induction false} SecondDone(w: World, z: nat, page: nat, e: Word, flags: Word)
    requires Sane(w) && Taken(w.table, PAGE_SIZE)
    ensures MapFrom(w, 1, z, 1, page, e, flags).1
  {
    TakenZero(w);
    MapFromStep(w, 1, z, 1, page, e, flags);
  }

  // ---------------------------------------------------------------- large pages and the TLB

  /** Frames 0, 1 and 2 are a root with one table below it and one below that, whose only entry
      is x. */
  ghost predicate Chain(m: Memory, x: Word) {
    && 2048 <= |m| && m[0] == 0x1003 && m[512] == 0x2003 && m[1024] == x
    && forall k :: 0 <= k < 1536 && k % 512 != 0 ==> m[k] == 0
  }

  ghost predicate Zeros(p: seq<nat>) { forall i :: 0 <= i < |p| ==> p[i] == 0 }

  function ChainTable(p: seq<nat>, x: Word): TableRef {
    if |p| <= 2 then At(|p|) else Child(x)
  }

  lemma {:induction false} ChainTab(m: Memory, x: Word, p: seq<nat>)
    requires Chain(m, x) && IsPath(p)
    ensures Tab(m, 0, p) == if Zeros(p) then ChainTable(p, x) else Absent
    decreases |p|
  {
    if p != [] {
      var q, i := p[..|p| - 1], p[|p| - 1];
      ChainTab(m, x, q);
      ZerosStep(p);
      if Zeros(q) { ChainEntry(m, x, |q|, i); }
    }
  }

  lemma {:induction false} ZerosStep(p: seq<nat>)
    requires p != []
    ensures Zeros(p) <==> Zeros(p[..|p| - 1]) && p[|p| - 1] == 0
  {
    assert p == p[..|p| - 1] + [p[|p| - 1]];
  }

  lemma {:induction false} ChainEntry(m: Memory, x: Word, f: nat, i: nat)
    requires Chain(m, x) && f <= 2 && i < ENTRIES
    ensures EntryAt(m, f, i) == if i != 0 then 0 else if f == 0 then 0x1003 else if f == 1 then 0x2003 else x
  {
    assert (512 * f + i) % 512 == i;
  }

  lemma {:induction false} ChainInv(w: World, x: Word)
    requires Sane(w) && Chain(w.mem, x) && w.table == []
    requires Child(x) == Absent || (Child(x) == At(3) && x < MAX_ADDRESS)
    ensures Inv(w, 0)
    ensures forall p :: IsPath(p) && Tab(w.mem, 0, p).At? ==> Tab(w.mem, 0, p).frame <= 3
  {
    forall p | IsPath(p)
      ensures Tab(w.mem, 0, p) == if Zeros(p) then ChainTable(p, x) else Absent
    {
      ChainTab(w.mem, x, p);
    }
    forall p, i: nat | IsPath(p) && |p| < 3 && Tab(w.mem, 0, p).At? && i < ENTRIES
      ensures var e := EntryAt(w.mem, Tab(w.mem, 0, p).frame, i); Child(e).At? ==> e < MAX_ADDRESS
    {
      ChainEntry(w.mem, x, |p|, i);
    }
  }

  lemma {:induction false} FirstGibPath(page: nat, n: nat)
    requires n <= 3 && page < 512
    ensures IsPath(PathOf(page, n)) && Zeros(PathOf(page, n)) && |PathOf(page, n)| == n
  {
    PathStep(page, n);
    assert page / 512 == 0 && page / 0x4_0000 == 0 && page / 0x800_0000 == 0;
  }

  lemma {:induction false} ChainPath(m: Memory, x: Word, page: nat, n: nat)
    requires Chain(m, x) && n <= 3 && page < 512
    ensures Tab(m, 0, PathOf(page, n)) == if n <= 2 then At(n) else Child(x)
  {
    FirstGibPath(page, n);
    ChainTab(m, x, PathOf(page, n));
  }

  lemma {:induction false} SmallLeafAt(m: Memory, table: nat, page: nat, e: Word)
    requires page < 512 && EntryAt(m, table, page) == e && Present(e)
    ensures Walk(m, table, 0, page).Mapped? && Walk(m, table, 0, page).level == 0
  {
    assert Digit(page, 0) == page;
  }

  lemma {:induction false} ChainNoLarge(m: Memory, x: Word, page: nat)
    requires Chain(m, x) && page < 512
    ensures NoLarge(m, 0, 3, 1, page)
  {
    ChainEntry(m, x, 0, 0);
    ChainEntry(m, x, 1, 0);
    assert Digit(page, 3) == 0 && Digit(page, 2) == 0;
    assert NoLarge(m, 2, 1, 1, page);
    assert NoLarge(m, 1, 2, 1, page);
  }

  lemma {:induction false} SmallPage(m: Memory, x: Word, f: nat, page: nat)
    requires Chain(m, x) && Child(x) == At(f) && page < 512 && Present(EntryAt(m, f, page))
    ensures Translate(m, 0, page).Mapped? && Translate(m, 0, page).level == 0
  {
    ChainPath(m, x, page, 3);
    SmallLeafAt(m, f, page, EntryAt(m, f, page));
    LevelFound(m, 0, page, 3, f);
  }

  lemma {:induction false} StalePageOne(w: World, virt: Word, flags: Word) returns (tlb: Tlb)
    requires Inv(w, 0) && Chain(w.mem, 0x3003) && w.mem[1537] == 0x5003 && PageOf(virt) == 0 && Large(flags)
    ensures NoLarge(w.mem, 0, 3, 1, PageOf(virt))
    ensures Exact(w.mem, 0, tlb) && !Exact(MapHuge(w, 0, virt, 0, flags).0.mem, 0, Invlpg(tlb, PageOf(virt)))
  {
    assert EntryAt(w.mem, 3, 1) == 0x5003;
    SmallPage(w.mem, 0x3003, 3, 1);
    ChainNoLarge(w.mem, 0x3003, 0);
    NoLargePassable(w.mem, 0, 0, 3, 1, 0);
    HugeFlushIff(w, 0, virt, 0, flags);
    assert SameLeaf(1, 0, 1) && !FaultOrLarge(Translate(w.mem, 0, 1));
    assert !BlockReady(w.mem, 0, 0);
    tlb :| Exact(w.mem, 0, tlb) && !Exact(MapHuge(w, 0, virt, 0, flags).0.mem, 0, Invlpg(tlb, PageOf(virt)));
  }

  /** Page 1 is mapped by a 4 KiB entry; after a 2 MiB call for page 0 of the same block its
      cached translation is stale. */
  lemma {:induction false} FlushMissesPage() returns (w: World, virt: Word, flags: Word, tlb: Tlb)
    ensures Inv(w, 0) && Present(flags) && Large(flags) && NoLarge(w.mem, 0, 3, 1, PageOf(virt))
    ensures Exact(w.mem, 0, tlb) && !Exact(MapHuge(w, 0, virt, 0, flags).0.mem, 0, Invlpg(tlb, PageOf(virt)))
  {
    virt, flags := 0, 0x83;
    w := World(seq(2048, k => if k == 0 then 0x1003 else if k == 512 then 0x2003
                              else if k == 1024 then 0x3003 else if k == 1537 then 0x5003 else 0), []);
    ChainInv(w, 0x3003);
    tlb := StalePageOne(w, virt, flags);
  }

  lemma {:induction false} HiddenUnderChain(w: World, x: Word, virt: Word, phys: Word, flags: Word)
    requires Inv(w, 0) && Chain(w.mem, x) && Present(x) && Large(x) && PageOf(virt) < 512
    requires NoTable(w.mem, 0, x / PAGE_SIZE)
    ensures var (w', done) := MapSmall(w, 0, virt, phys, flags);
            && done && w' == WriteLeaf(w, x / PAGE_SIZE, Index(virt, 0), MakeEntry(phys, flags))
            && !Updated(w.mem, w'.mem, 0, PageOf(virt), SmallTranslation(w.mem, 0, PageOf(virt), phys, flags))
  {
    ChainPath(w.mem, x, PageOf(virt), 2);
    IndexDigit(virt, 1);
    assert Digit(PageOf(virt), 1) == 0;
    ChainEntry(w.mem, x, 2, 0);
    LargePageHidesMapping(w, 0, virt, phys, flags, 2);
  }

  /** Word 5 of frame 512 is overwritten. */
  lemma {:induction false} WordFive(w: World, virt: Word, phys: Word, flags: Word)
    requires 0x8_0000 <= |w.mem| && w.mem[262149] == 0 && Index(virt, 0) == 5 && MakeEntry(phys, flags) == 0x9003
    ensures EntryAt(w.mem, 512, 5) == 0
    ensures EntryAt(WriteLeaf(w, 512, Index(virt, 0), MakeEntry(phys, flags)).mem, 512, 5) == 0x9003
  {
  }

  lemma {:induction false} FifthPage(virt: Word, phys: Word, flags: Word)
    requires virt == 0x5000 && phys == 0x9000 && flags == 3
    ensures PageOf(virt) == 5 && Index(virt, 0) == 5 && MakeEntry(phys, flags) == 0x9003
    ensures Present(flags) && !Large(flags)
  {
    assert virt / PAGE_SIZE == 5;
    IndexDigit(virt, 0);
  }

  /** A 2 MiB page at 2 MiB covers the address 0x5000: the 4 KiB call completes, maps nothing and
      overwrites a word of the page. */
  lemma {:induction false} CoveredPageIsNotMapped() returns (w: World, virt: Word, phys: Word, flags: Word)
    ensures Inv(w, 0) && Present(flags) && !Large(flags) && MapSmall(w, 0, virt, phys, flags).1
    ensures var m := MapSmall(w, 0, virt, phys, flags).0.mem;
            && !Updated(w.mem, m, 0, PageOf(virt), SmallTranslation(w.mem, 0, PageOf(virt), phys, flags))
            && EntryAt(w.mem, 512, 5) == 0 && EntryAt(m, 512, 5) == 0x9003
  {
    virt, phys, flags := 0x5000, 0x9000, 3;
    var x: Word := 0x20_0083;
    w := World(seq(0x8_0000, k => if k == 0 then 0x1003 else if k == 512 then 0x2003
                                  else if k == 1024 then x else 0), []);
    ChainInv(w, x);
    FifthPage(virt, phys, flags);
    assert x / PAGE_SIZE == 512 && w.mem[262149] == 0;
    HiddenUnderChain(w, x, virt, phys, flags);
    WordFive(w, virt, phys, flags);
  }

  // ---------------------------------------------------------------- rights withheld

  lemma {:induction false} ChainComplete(m: Memory, page: nat)
    requires Chain(m, 0x3003) && page < 512
    ensures NoLarge(m, 0, 3, 0, page) && Missing(m, 0, 3, 0, page) == 0
  {
    ChainEntry(m, 0x3003, 0, 0);
    ChainEntry(m, 0x3003, 1, 0);
    ChainEntry(m, 0x3003, 2, 0);
    assert Digit(page, 3) == 0 && Digit(page, 2) == 0 && Digit(page, 1) == 0;
    assert NoLarge(m, 3, 0, 0, page) && Missing(m, 3, 0, 0, page) == 0;
    assert NoLarge(m, 2, 1, 0, page) && Missing(m, 2, 1, 0, page) == 0;
    assert NoLarge(m, 1, 2, 0, page) && Missing(m, 1, 2, 0, page) == 0;
  }

  /** An entry without USER takes the right from all pages below it. */
  lemma {:induction false} NoUserBelow(m: Memory, table: nat, level: nat, leaf: nat, page: nat, flags: Word)
    requires leaf < level && (var e := EntryAt(m, table, Digit(page, level)); Child(e).At? && !User(e))
    ensures !Rights(m, table, level, leaf, page, flags).1
  {
  }

  lemma {:induction false} ChainWithholds(w: World, virt: Word, phys: Word, flags: Word)
    requires Inv(w, 0) && Chain(w.mem, 0x3003) && PageOf(virt) < 512 && Present(flags) && User(flags) && !Large(flags)
    ensures var (w', done) := MapSmall(w, 0, virt, phys, flags);
            && done && !Updated(w.mem, w'.mem, 0, PageOf(virt), AskedSmall(phys, flags))
            && Translate(w'.mem, 0, PageOf(virt)).Mapped? && !Translate(w'.mem, 0, PageOf(virt)).user
  {
    var page := PageOf(virt);
    ChainComplete(w.mem, page);
    ChainEntry(w.mem, 0x3003, 0, Digit(page, 3));
    FirstGib(page);
    NoUserBelow(w.mem, 0, 3, 0, page, flags);
    MapSmallRefines(w, 0, virt, phys, flags);
    var target := SmallTranslation(w.mem, 0, page, phys, flags);
    UpdatedOnce(w.mem, MapSmall(w, 0, virt, phys, flags).0.mem, 0, page, target, AskedSmall(phys, flags));
  }

  lemma {:induction false} FirstGib(page: nat)
    requires page < 512
    ensures Digit(page, 3) == 0 && Digit(page, 2) == 0 && Digit(page, 1) == 0
  {
  }

  /** A USER page below a supervisor-only root entry: the call completes, and the page is not
      accessible to users. */
  lemma {:induction false} RightsWithheld() returns (w: World, virt: Word, phys: Word, flags: Word)
    ensures Inv(w, 0) && Present(flags) && User(flags) && !Large(flags) && NoLarge(w.mem, 0, 3, 0, PageOf(virt))
    ensures var (w', done) := MapSmall(w, 0, virt, phys, flags);
            && done && !Updated(w.mem, w'.mem, 0, PageOf(virt), AskedSmall(phys, flags))
            && Translate(w'.mem, 0, PageOf(virt)).Mapped? && !Translate(w'.mem, 0, PageOf(virt)).user
  {
    virt, phys, flags := 0, 0x5000, 7;
    w := World(seq(2048, k => if k == 0 then 0x1003 else if k == 512 then 0x2003
                              else if k == 1024 then 0x3003 else 0), []);
    ChainInv(w, 0x3003);
    ChainComplete(w.mem, PageOf(virt));
    ChainWithholds(w, virt, phys, flags);
  }

  // ---------------------------------------------------------------- a page table in a hole

  /** The root lies in a hole between two regions of the boot table. One request takes the page
      before the hole; its release makes the root free memory. */
  lemma {:induction false} RootBecomesFree() returns (s0: System, s: System, b: Block)
    ensures SysInv(s0, 2) && Booted(s0.world.table) && s0.live == {}
    ensures Enabled(s0, 2, ClientAlloc(1)) && s == Apply(s0, 2, ClientAlloc(1))
    ensures SysInv(s, 2) && s.pc.Idle? && b in s.live && !SysInv(Apply(s, 2, ClientFree(b)), 2)
  {
    b := (0x1000, 0x1000);
    var t0 := [Region(0x1000, 0x1000, true), Region(0x3000, 0x1000, true)];
    s0 := System(World(seq(2048, _ => 0), t0), {}, map[], Idle);
    EmptyRootInv(s0.world, 2);
    TakeFront(s0);
    s := Apply(s0, 2, ClientAlloc(1));
    ClientAllocStep(s0, 2, 1);
    HoleBefore(s, b);
  }

  lemma {:induction false} TakeFront(s: System)
    requires Sane(s.world) && s.live == {}
    requires s.world.table == [Region(0x1000, 0x1000, true), Region(0x3000, 0x1000, true)]
    ensures PageBytes(1) != 0
    ensures var s' := Apply(s, 2, ClientAlloc(1));
            && s'.world.table == [Region(0x1000, 0x1000, false), Region(0x3000, 0x1000, true)]
            && s'.live == {(0x1000, 0x1000)} && s'.pc == s.pc
  {
    assert PageBytes(1) == PAGE_SIZE;
    FirstFitIs(s.world.table, PAGE_SIZE, 0, 0);
  }

  lemma {:induction false} HoleBefore(s: System, b: Block)
    requires SysInv(s, 2) && s.pc.Idle? && b in s.live && b == (0x1000, 0x1000)
    requires s.world.table == [Region(0x1000, 0x1000, false), Region(0x3000, 0x1000, true)]
    ensures !SysInv(Apply(s, 2, ClientFree(b)), 2)
  {
    var t := s.world.table;
    ClientFreeIff(s, 2, b);
    FindIs(t, 0x1000, 0x1000, 0, 0);
    assert InBlock(Merged(t, 0), 0x2000);
    assert Tab(s.world.mem, 2, []) == At(2) && IsPath([]);
    assert !FrameApart(2, Merged(t, 0));
  }
}
