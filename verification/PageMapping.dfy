/** `map_page` (arch/x86_64/src/mem_impl.cpp) as a function of memory and region table, and the
    proof that it refines a point update of the hardware's translation. */
module PageMapping {
  import opened Words
  import opened RegionTable
  import opened RegionLaws
  import opened AllocatorRuns
  import opened Pmm
  import opened PageWalk

  datatype World = World(mem: Memory, table: Table)

  /** Index extraction from a virtual address: shift right, keep nine bits. */
  function Index(virt: Word, level: nat): (i: nat)
    requires level <= 3
    ensures i < ENTRIES
  {
    virt / (PAGE_SIZE * Span(level)) % ENTRIES
  }

  /** The 36-bit virtual page number of an address. */
  function PageOf(virt: Word): (p: nat)
    ensures p < VIRTUAL_PAGES
  {
    virt / PAGE_SIZE % VIRTUAL_PAGES
  }

  /** `(addr & ~0xFFF) | (flags & 0xFFF)`. */
  function MakeEntry(addr: Word, flags: Word): Word {
    addr - addr % PAGE_SIZE + flags % PAGE_SIZE
  }

  /** `(addr & ~0x1FFFFF) | (flags & 0xFFF) | HUGE`, where `flags` has the HUGE bit. */
  function MakeHugeEntry(addr: Word, flags: Word): Word {
    addr - addr % 0x20_0000 + flags % PAGE_SIZE
  }

  ghost predicate Sane(w: World) {
    && Valid(w.table) && NoPageZero(w.table) && InMemory(w.table, |w.mem|)
    && WORD_BYTES * |w.mem| <= MAX_ADDRESS
  }

  function TakePage(w: World): (r: (World, Word))
    requires Sane(w)
    ensures Sane(r.0)
  {
    AllocReady(w.table, PAGE_SIZE, |w.mem|);
    AllocNoPageZero(w.table, PAGE_SIZE);
    (World(AllocMemory(w.mem, w.table, PAGE_SIZE), Alloc(w.table, PAGE_SIZE)), AllocAddress(w.table, PAGE_SIZE))
  }

  /** One level of the walk: follow entry i of table t, or allocate a table for it. */
  function EnsureTable(w: World, t: nat, i: nat, flags: Word): (r: (World, TableRef))
    requires Sane(w)
    ensures Sane(r.0)
  {
    var e := EntryAt(w.mem, t, i);
    if Present(e) then (w, At(e / PAGE_SIZE))
    else
      var (w1, addr) := TakePage(w);
      if addr == 0 then (w1, Absent)
      else (World(SetEntry(w1.mem, t, i, MakeEntry(addr, flags)), w1.table), At(addr / PAGE_SIZE))
  }

  function WriteLeaf(w: World, t: nat, i: nat, e: Word): World {
    World(SetEntry(w.mem, t, i, e), w.table)
  }

  /** The 4 KiB branch; the flag says whether the leaf was written. */
  function MapSmall(w: World, root: nat, virt: Word, phys: Word, flags: Word): (World, bool)
    requires Sane(w)
  {
    var (w3, t3) := EnsureTable(w, root, Index(virt, 3), flags);
    if t3.Absent? then (w3, false) else
    var (w2, t2) := EnsureTable(w3, t3.frame, Index(virt, 2), flags);
    if t2.Absent? then (w2, false) else
    var (w1, t1) := EnsureTable(w2, t2.frame, Index(virt, 1), flags);
    if t1.Absent? then (w1, false) else
    (WriteLeaf(w1, t1.frame, Index(virt, 0), MakeEntry(phys, flags)), true)
  }

  /** The 2 MiB branch. */
  function MapHuge(w: World, root: nat, virt: Word, phys: Word, flags: Word): (World, bool)
    requires Sane(w)
  {
    var (w3, t3) := EnsureTable(w, root, Index(virt, 3), flags);
    if t3.Absent? then (w3, false) else
    var (w2, t2) := EnsureTable(w3, t3.frame, Index(virt, 2), flags);
    if t2.Absent? then (w2, false) else
    (WriteLeaf(w2, t2.frame, Index(virt, 1), MakeHugeEntry(phys, flags)), true)
  }

  /** The level at which a call with these flags writes its leaf, and what it writes. */
  function LeafOf(flags: Word): nat { if Large(flags) then 1 else 0 }

  function LeafEntry(phys: Word, flags: Word): Word {
    if Large(flags) then MakeHugeEntry(phys, flags) else MakeEntry(phys, flags)
  }

  /** `map_page`: the branch for the HUGE flag, or the other. */
  function MapCall(w: World, root: nat, virt: Word, phys: Word, flags: Word): (World, bool)
    requires Sane(w)
  {
    if Large(flags) then MapHuge(w, root, virt, phys, flags) else MapSmall(w, root, virt, phys, flags)
  }

  // ---------------------------------------------------------------- invariant

  ghost predicate FrameInUse(t: Table, n: nat) {
    forall a :: PAGE_SIZE * n <= a < PAGE_SIZE * n + PAGE_SIZE ==> !FreeByte(t, a)
  }

  ghost predicate FrameWasFree(t: Table, n: nat) {
    forall a :: PAGE_SIZE * n <= a < PAGE_SIZE * n + PAGE_SIZE ==> FreeByte(t, a)
  }

  /** The tables form a tree, and no byte of a table is free. */
  ghost predicate Inv(w: World, root: nat) {
    && Sane(w) && Tree(w.mem, root)
    && forall p :: IsPath(p) && Tab(w.mem, root, p).At? ==> FrameInUse(w.table, Tab(w.mem, root, p).frame)
  }

  lemma {:induction false} EntryBits(addr: Word, flags: Word)
    ensures var e := MakeEntry(addr, flags);
            && Present(e) == Present(flags) && Writable(e) == Writable(flags) && User(e) == User(flags)
            && Large(e) == Large(flags) && LowBits(e) == LowBits(flags)
            && e / PAGE_SIZE == addr / PAGE_SIZE && FrameOf(e) == FrameOf(addr)
  {
    var k, b := addr / PAGE_SIZE, flags % PAGE_SIZE;
    assert MakeEntry(addr, flags) == PAGE_SIZE * k + b;
    LowBitsOnly(k, b);
    LowBitsOnly(flags / PAGE_SIZE, b);
    assert flags == PAGE_SIZE * (flags / PAGE_SIZE) + b;
  }

  lemma {:induction false} LowBitsOnly(k: nat, b: nat)
    requires b < PAGE_SIZE && PAGE_SIZE * k + b < TWO64
    ensures var e := PAGE_SIZE * k + b;
            && e % 2 == b % 2 && e / 2 % 2 == b / 2 % 2 && e / 4 % 2 == b / 4 % 2 && e / 128 % 2 == b / 128 % 2
            && e % PAGE_SIZE == b && e / PAGE_SIZE == k
  {
    EvenPart(2048 * k, b);
    LowBit1(k, b);
    LowBit2(k, b);
    LowBit7(k, b);
    PagePart(k, b);
    assert PAGE_SIZE * k + b == 2 * (2048 * k) + b;
  }

  lemma {:induction false} PagePart(k: nat, b: nat)
    requires b < PAGE_SIZE
    ensures (PAGE_SIZE * k + b) / PAGE_SIZE == k && (PAGE_SIZE * k + b) % PAGE_SIZE == b
  {
  }

  lemma {:induction false} EvenPart(k: nat, b: nat)
    ensures (2 * k + b) % 2 == b % 2
  {
  }

  lemma {:induction false} LowBit1(k: nat, b: nat)
    ensures (PAGE_SIZE * k + b) / 2 % 2 == b / 2 % 2
  {
    assert (PAGE_SIZE * k + b) / 2 == 2 * (1024 * k) + b / 2;
    EvenPart(1024 * k, b / 2);
  }

  lemma {:induction false} LowBit2(k: nat, b: nat)
    ensures (PAGE_SIZE * k + b) / 4 % 2 == b / 4 % 2
  {
    assert (PAGE_SIZE * k + b) / 4 == 2 * (512 * k) + b / 4;
    EvenPart(512 * k, b / 4);
  }

  lemma {:induction false} LowBit7(k: nat, b: nat)
    ensures (PAGE_SIZE * k + b) / 128 % 2 == b / 128 % 2
  {
    assert (PAGE_SIZE * k + b) / 128 == 2 * (16 * k) + b / 128;
    EvenPart(16 * k, b / 128);
  }

  /** The indices that the code extracts are the digits of the 36-bit page number. */
  lemma {:induction false} IndexDigit(virt: Word, level: nat)
    requires level <= 3
    ensures Digit(PageOf(virt), level) == Index(virt, level)
  {
    var k := virt / PAGE_SIZE;
    assert virt / (PAGE_SIZE * Span(level)) == k / Span(level);
    DropHigh(k / VIRTUAL_PAGES, k % VIRTUAL_PAGES, level);
    assert k == VIRTUAL_PAGES * (k / VIRTUAL_PAGES) + k % VIRTUAL_PAGES;
  }

  lemma {:induction false} DropHigh(q: nat, r: nat, level: nat)
    requires level <= 3
    ensures Digit(VIRTUAL_PAGES * q + r, level) == Digit(r, level)
  {
    if level == 0 {
      DropDigit(0x800_0000 * q, r);
    } else if level == 1 {
      DropHigh1(q, r);
      DropDigit(0x4_0000 * q, r / 512);
    } else if level == 2 {
      DropHigh2(q, r);
      DropDigit(512 * q, r / 0x4_0000);
    } else {
      DropHigh3(q, r);
      DropDigit(q, r / 0x800_0000);
    }
  }

  lemma {:induction false} DropDigit(q: nat, r: nat)
    ensures (512 * q + r) % 512 == r % 512
  {
  }

  lemma {:induction false} DropHigh1(q: nat, r: nat)
    ensures (VIRTUAL_PAGES * q + r) / 512 == 512 * (0x4_0000 * q) + r / 512
  {
  }

  lemma {:induction false} DropHigh2(q: nat, r: nat)
    ensures (VIRTUAL_PAGES * q + r) / 0x4_0000 == 512 * (512 * q) + r / 0x4_0000
  {
  }

  lemma {:induction false} DropHigh3(q: nat, r: nat)
    ensures (VIRTUAL_PAGES * q + r) / 0x800_0000 == 512 * q + r / 0x800_0000
  {
  }

  /** A page taken from the allocator lies in memory and is zeroed. */
  lemma {:induction false} TakenZero(w: World)
    requires Sane(w) && Taken(w.table, PAGE_SIZE)
    ensures var (w', addr) := TakePage(w);
            var z := addr / PAGE_SIZE;
            && addr != 0 && addr == PAGE_SIZE * z && addr + PAGE_SIZE <= MAX_ADDRESS
            && ENTRIES * z + ENTRIES <= |w.mem| == |w'.mem| && ZeroFrame(w'.mem, z)
  {
    assert WholePages(w.table[FirstFit(w.table, PAGE_SIZE)]);
  }

  /** A page taken from the allocator is zeroed, is not a table, and disturbs no table. */
  lemma {:induction false} TakePageKeeps(w: World, root: nat)
    requires Inv(w, root)
    ensures var (w', addr) := TakePage(w);
            && (addr != 0 <==> Taken(w.table, PAGE_SIZE))
            && (addr == 0 ==> w' == w)
            && (addr != 0 ==>
                  var z := addr / PAGE_SIZE;
                  && addr == PAGE_SIZE * z && ENTRIES * z + ENTRIES <= |w.mem| && addr + PAGE_SIZE <= MAX_ADDRESS
                  && SameTables(w.mem, w'.mem, root) && ZeroFrame(w'.mem, z)
                  && FrameInUse(w'.table, z) && FrameWasFree(w.table, z)
                  && (forall p :: IsPath(p) ==> Tab(w.mem, root, p) != At(z))
                  && (forall a :: FreeByte(w'.table, a) ==> FreeByte(w.table, a)))
  {
    var (w', addr) := TakePage(w);
    if addr != 0 {
      var z := addr / PAGE_SIZE;
      assert WholePages(w.table[FirstFit(w.table, PAGE_SIZE)]);
      AllocExact(w.table, PAGE_SIZE);
      assert InBlock((addr, PAGE_SIZE), addr);
      forall p, i: nat | IsPath(p) && Tab(w.mem, root, p).At? && i < ENTRIES
        ensures EntryAt(w'.mem, Tab(w.mem, root, p).frame, i) == EntryAt(w.mem, Tab(w.mem, root, p).frame, i)
      {
        assert !FreeByte(w.table, PAGE_SIZE * Tab(w.mem, root, p).frame);
        assert Tab(w.mem, root, p).frame != z;
      }
      forall a | PAGE_SIZE * z <= a < PAGE_SIZE * z + PAGE_SIZE
        ensures !FreeByte(w'.table, a) && FreeByte(w.table, a)
      {
        assert InBlock((addr, PAGE_SIZE), a);
      }
    }
  }

  lemma {:induction false} SameTablesTree(m: Memory, m': Memory, root: nat)
    requires SameTables(m, m', root) && Tree(m, root) && |m'| == |m|
    ensures Tree(m', root)
    ensures forall p :: IsPath(p) ==> Tab(m', root, p) == Tab(m, root, p)
  {
    forall p | IsPath(p)
      ensures Tab(m', root, p) == Tab(m, root, p)
    {
      SameTab(m, m', root, p);
    }
    forall p, i: nat | IsPath(p) && |p| < 3 && Tab(m', root, p).At? && i < ENTRIES
      ensures var e := EntryAt(m', Tab(m', root, p).frame, i); Child(e).At? ==> e < MAX_ADDRESS
    {
      assert EntryAt(m', Tab(m, root, p).frame, i) == EntryAt(m, Tab(m, root, p).frame, i);
    }
  }

  // ---------------------------------------------------------------- one level

  /** Everything one `EnsureTable` promises to the rest of the walk of any page. */
  ghost predicate LevelDone(w: World, w': World, root: nat, p: seq<nat>, i: nat, e: Word, c: TableRef, flags: Word) {
    && Inv(w', root)
    && (forall page :: Translate(w'.mem, root, page) == Translate(w.mem, root, page))
    && (forall leaf, page :: Rights(w'.mem, root, 3, leaf, page, flags) == Rights(w.mem, root, 3, leaf, page, flags))
    && (Present(e) ==> w' == w && c == Child(e))
    && (!Present(e) ==> w'.table == Alloc(w.table, PAGE_SIZE) && (c.At? <==> Taken(w.table, PAGE_SIZE)))
    && (c.Absent? ==> w' == w)
    && (c.At? ==> Tab(w'.mem, root, p + [i]) == c)
    && (!Present(e) && c.At? ==> ZeroFrame(w'.mem, c.frame))
    && TablesGrown(w, w', root)
  }

  /** Every table afterwards was a table before or was free memory. */
  ghost predicate TablesGrown(w: World, w': World, root: nat) {
    && (w'.table == w.table || w'.table == Alloc(w.table, PAGE_SIZE))
    && forall q :: IsPath(q) && Tab(w'.mem, root, q).At? ==>
         Tab(w'.mem, root, q) == Tab(w.mem, root, q) || FrameWasFree(w.table, Tab(w'.mem, root, q).frame)
  }

  lemma {:induction false} FollowLevel(w: World, root: nat, p: seq<nat>, t: nat, i: nat, flags: Word)
    requires Inv(w, root) && IsPath(p) && |p| < 3 && Tab(w.mem, root, p) == At(t) && i < ENTRIES
    requires Present(EntryAt(w.mem, t, i)) && !Large(EntryAt(w.mem, t, i))
    ensures var (w', c) := EnsureTable(w, t, i, flags);
            LevelDone(w, w', root, p, i, EntryAt(w.mem, t, i), c, flags)
  {
    var e := EntryAt(w.mem, t, i);
    assert Child(e).At? && e < MAX_ADDRESS;
    assert e / PAGE_SIZE == FrameOf(e);
    TabStep(w.mem, root, p, i);
  }

  /** The slot is empty and the allocator has a page: what EnsureTable does is a link. */
  lemma {:induction false} LinkShape(w: World, root: nat, p: seq<nat>, t: nat, i: nat, flags: Word)
    returns (w1: World, z: nat, e: Word)
    requires Inv(w, root) && IsPath(p) && |p| < 3 && Tab(w.mem, root, p) == At(t) && i < ENTRIES
    requires !Present(EntryAt(w.mem, t, i)) && Taken(w.table, PAGE_SIZE)
    requires Present(flags) && !Large(flags)
    ensures SameTables(w.mem, w1.mem, root) && |w1.mem| == |w.mem|
    ensures forall q :: IsPath(q) ==> Tab(w1.mem, root, q) == Tab(w.mem, root, q)
    ensures w1.table == Alloc(w.table, PAGE_SIZE) && FrameInUse(w1.table, z)
    ensures (forall a :: FreeByte(w1.table, a) ==> FreeByte(w.table, a)) && FrameWasFree(w.table, z)
    ensures Writable(e) == Writable(flags) && User(e) == User(flags)
    ensures EnsureTable(w, t, i, flags) == (World(SetEntry(w1.mem, t, i, e), w1.table), At(z))
    ensures Link(w1.mem, SetEntry(w1.mem, t, i, e), root, p, t, i, e, z)
  {
    w1 := TakePage(w).0;
    var addr := TakePage(w).1;
    TakePageKeeps(w, root);
    SameTablesTree(w.mem, w1.mem, root);
    z := addr / PAGE_SIZE;
    e := MakeEntry(addr, flags);
    TableEntry(addr, flags);
  }

  lemma {:induction false} TableEntry(addr: Word, flags: Word)
    requires addr % PAGE_SIZE == 0 && addr + PAGE_SIZE <= MAX_ADDRESS && Present(flags) && !Large(flags)
    ensures var e := MakeEntry(addr, flags);
            && e < MAX_ADDRESS && Child(e) == At(addr / PAGE_SIZE)
            && Writable(e) == Writable(flags) && User(e) == User(flags)
  {
    EntryBits(addr, flags);
  }

  lemma {:induction false} LinkKeepsInv(w: World, w1: World, root: nat, p: seq<nat>, t: nat, i: nat, e: Word, z: nat)
    requires Inv(w, root) && SameTables(w.mem, w1.mem, root) && |w1.mem| == |w.mem|
    requires w1.table == Alloc(w.table, PAGE_SIZE)
    requires forall q :: IsPath(q) ==> Tab(w1.mem, root, q) == Tab(w.mem, root, q)
    requires FrameInUse(w1.table, z) && forall a :: FreeByte(w1.table, a) ==> FreeByte(w.table, a)
    requires Link(w1.mem, SetEntry(w1.mem, t, i, e), root, p, t, i, e, z)
    ensures var m := SetEntry(w1.mem, t, i, e);
            && Inv(World(m, w1.table), root) && Tab(m, root, p + [i]) == At(z) && ZeroFrame(m, z)
            && forall q :: IsPath(q) ==> Tab(m, root, q) == if q == p + [i] then At(z) else Tab(w.mem, root, q)
  {
    var m := SetEntry(w1.mem, t, i, e);
    LinkTree(w1.mem, m, root, p, t, i, e, z);
    assert IsPath(p + [i]);
    forall d: nat | d < ENTRIES
      ensures EntryAt(m, z, d) == 0
    {
      WrittenEntry(w1.mem, m, root, p, t, i, e, z, d);
    }
    forall q | IsPath(q) && Tab(m, root, q).At?
      ensures FrameInUse(w1.table, Tab(m, root, q).frame)
    {
      assert q == p + [i] || Tab(m, root, q) == Tab(w.mem, root, q);
    }
    AllocReady(w.table, PAGE_SIZE, |w.mem|);
    AllocNoPageZero(w.table, PAGE_SIZE);
  }

  /** Linking the new table keeps every translation. */
  lemma {:induction false} LinkLevel(w: World, root: nat, p: seq<nat>, t: nat, i: nat, flags: Word)
    requires Inv(w, root) && IsPath(p) && |p| < 3 && Tab(w.mem, root, p) == At(t) && i < ENTRIES
    requires !Present(EntryAt(w.mem, t, i)) && Taken(w.table, PAGE_SIZE)
    requires Present(flags) && !Large(flags)
    ensures var (w', c) := EnsureTable(w, t, i, flags);
            LevelDone(w, w', root, p, i, EntryAt(w.mem, t, i), c, flags)
  {
    var w1, z, e := LinkShape(w, root, p, t, i, flags);
    LinkKeepsInv(w, w1, root, p, t, i, e, z);
    var m := SetEntry(w1.mem, t, i, e);
    forall page
      ensures Translate(m, root, page) == Translate(w.mem, root, page)
    {
      SameWalk(w.mem, w1.mem, root, root, 3, 0, page, flags);
      LinkWalk(w1.mem, m, root, p, t, i, e, z, root, 3, 0, page, flags);
    }
    forall leaf, page
      ensures Rights(m, root, 3, leaf, page, flags) == Rights(w.mem, root, 3, leaf, page, flags)
    {
      SameWalk(w.mem, w1.mem, root, root, 3, leaf, page, flags);
      LinkWalk(w1.mem, m, root, p, t, i, e, z, root, 3, leaf, page, flags);
    }
  }

  lemma {:induction false} EnsureLevel(w: World, root: nat, p: seq<nat>, t: nat, i: nat, flags: Word)
    requires Inv(w, root) && IsPath(p) && |p| < 3 && Tab(w.mem, root, p) == At(t) && i < ENTRIES
    requires Present(EntryAt(w.mem, t, i)) ==> !Large(EntryAt(w.mem, t, i))
    requires Present(flags) && !Large(flags)
    ensures var (w', c) := EnsureTable(w, t, i, flags);
            LevelDone(w, w', root, p, i, EntryAt(w.mem, t, i), c, flags)
  {
    if Present(EntryAt(w.mem, t, i)) {
      FollowLevel(w, root, p, t, i, flags);
    } else if Taken(w.table, PAGE_SIZE) {
      LinkLevel(w, root, p, t, i, flags);
    } else {
      TakePageKeeps(w, root);
    }
  }

  // ---------------------------------------------------------------- the whole walk

  /** No large-page entry stands between a table and the leaf level on the walk of `page`. */
  predicate NoLarge(m: Memory, table: nat, level: nat, leaf: nat, page: nat)
    decreases level
  {
    level <= leaf ||
    var e := EntryAt(m, table, Digit(page, level));
    !Present(e) || (!Large(e) && NoLarge(m, FrameOf(e), level - 1, leaf, page))
  }

  /** How many tables the walk of `page` lacks above the leaf level. */
  function Missing(m: Memory, table: nat, level: nat, leaf: nat, page: nat): nat
    decreases level
  {
    if level <= leaf then 0
    else
      var e := EntryAt(m, table, Digit(page, level));
      if Present(e) then Missing(m, FrameOf(e), level - 1, leaf, page) else level - leaf
  }

  /** The allocator grants k one-page requests in a row. */
  predicate Granted(t: Table, k: nat)
    decreases k
  {
    k == 0 || (Taken(t, PAGE_SIZE) && Granted(Alloc(t, PAGE_SIZE), k - 1))
  }

  ghost predicate SameTranslations(w: World, w': World, root: nat, flags: Word) {
    && (forall page :: Translate(w'.mem, root, page) == Translate(w.mem, root, page))
    && (forall leaf, page :: Rights(w'.mem, root, 3, leaf, page, flags) == Rights(w.mem, root, 3, leaf, page, flags))
  }

  /** Where the walk of `page` stands: at table t, n levels below the root. */
  ghost predicate Standing(w: World, root: nat, n: nat, t: nat, leaf: nat, page: nat) {
    && Inv(w, root) && n <= 3 && Tab(w.mem, root, PathOf(page, n)) == At(t)
    && NoLarge(w.mem, t, 3 - n, leaf, page)
  }

  /** One level down: translations stay, and the walk stands one level lower unless memory ran
      out. */
  ghost predicate Stepped(w: World, w': World, root: nat, n: nat, c: TableRef, leaf: nat, page: nat, flags: Word)
    requires n < 3
  {
    && Inv(w', root) && SameTranslations(w, w', root, flags) && TablesGrown(w, w', root)
    && (c.Absent? ==> w' == w)
    && (c.At? ==> Standing(w', root, n + 1, c.frame, leaf, page))
  }

  lemma {:induction false} Descend(w: World, root: nat, n: nat, t: nat, leaf: nat, page: nat, flags: Word)
    requires Standing(w, root, n, t, leaf, page) && 3 - n > leaf && Present(flags) && !Large(flags)
    ensures var (w', c) := EnsureTable(w, t, Digit(page, 3 - n), flags);
            Stepped(w, w', root, n, c, leaf, page, flags)
  {
    var i := Digit(page, 3 - n);
    PathStep(page, n);
    EnsureLevel(w, root, PathOf(page, n), t, i, flags);
    var (w', c) := EnsureTable(w, t, i, flags);
    if c.At? && !Present(EntryAt(w.mem, t, i)) { ZeroBelow(w'.mem, c.frame, 2 - n, leaf, page); }
  }

  lemma {:induction false} FollowNeeds(m: Memory, t: nat, level: nat, leaf: nat, page: nat)
    requires level > leaf && Present(EntryAt(m, t, Digit(page, level)))
    ensures Missing(m, t, level, leaf, page)
         == Missing(m, FrameOf(EntryAt(m, t, Digit(page, level))), level - 1, leaf, page)
  {
  }

  lemma {:induction false} LinkNeeds(w: World, w': World, t: nat, c: nat, level: nat, leaf: nat, page: nat)
    requires level > leaf && !Present(EntryAt(w.mem, t, Digit(page, level)))
    requires Taken(w.table, PAGE_SIZE) && w'.table == Alloc(w.table, PAGE_SIZE) && ZeroFrame(w'.mem, c)
    ensures Granted(w.table, Missing(w.mem, t, level, leaf, page)) <==>
              Granted(w'.table, Missing(w'.mem, c, level - 1, leaf, page))
  {
    ZeroBelow(w'.mem, c, level - 1, leaf, page);
  }

  /** The pages still needed are one fewer exactly when one was taken. */
  lemma {:induction false} DescendNeeds(w: World, root: nat, n: nat, t: nat, leaf: nat, page: nat, flags: Word)
    requires Standing(w, root, n, t, leaf, page) && 3 - n > leaf && Present(flags) && !Large(flags)
    ensures var (w', c) := EnsureTable(w, t, Digit(page, 3 - n), flags);
            Granted(w.table, Missing(w.mem, t, 3 - n, leaf, page)) <==>
              c.At? && Granted(w'.table, Missing(w'.mem, c.frame, 2 - n, leaf, page))
  {
    var i := Digit(page, 3 - n);
    var (w', c) := EnsureTable(w, t, i, flags);
    PathStep(page, n);
    EnsureLevel(w, root, PathOf(page, n), t, i, flags);
    if Present(EntryAt(w.mem, t, i)) {
      FollowNeeds(w.mem, t, 3 - n, leaf, page);
    } else if c.At? {
      LinkNeeds(w, w', t, c.frame, 3 - n, leaf, page);
    } else {
      NoneNeeded(w, t, 3 - n, leaf, page);
    }
  }

  lemma {:induction false} NoneNeeded(w: World, t: nat, level: nat, leaf: nat, page: nat)
    requires level > leaf && !Present(EntryAt(w.mem, t, Digit(page, level))) && !Taken(w.table, PAGE_SIZE)
    ensures !Granted(w.table, Missing(w.mem, t, level, leaf, page))
  {
  }

  lemma {:induction false} ZeroBelow(m: Memory, z: nat, level: nat, leaf: nat, page: nat)
    requires ZeroFrame(m, z)
    ensures NoLarge(m, z, level, leaf, page)
    ensures Missing(m, z, level, leaf, page) == if level <= leaf then 0 else level - leaf
  {
  }

  /** Pages v and page lie under the same leaf entry of the given level. */
  predicate SameLeaf(v: nat, page: nat, leaf: nat) {
    v / Span(leaf) == page / Span(leaf)
  }

  lemma {:induction false} SameLeafPath(v: nat, page: nat, leaf: nat)
    requires leaf <= 1 && v < VIRTUAL_PAGES && page < VIRTUAL_PAGES
    ensures SameLeaf(v, page, leaf) <==> PathOf(v, 4 - leaf) == PathOf(page, 4 - leaf)
  {
    var a, b := PathOf(v, 4 - leaf), PathOf(page, 4 - leaf);
    SameLeafDigits(v, page, leaf);
    if a == b {
      assert a[0] == b[0] && a[1] == b[1] && a[2] == b[2];
      if leaf == 0 { assert a[3] == b[3]; }
    }
  }

  lemma {:induction false} SameLeafDigits(v: nat, page: nat, leaf: nat)
    requires leaf <= 1 && v < VIRTUAL_PAGES && page < VIRTUAL_PAGES
    ensures SameLeaf(v, page, leaf) <==>
              && Digit(v, 3) == Digit(page, 3) && Digit(v, 2) == Digit(page, 2) && Digit(v, 1) == Digit(page, 1)
              && (leaf == 0 ==> Digit(v, 0) == Digit(page, 0))
  {
    UpperDigits(v);
    UpperDigits(page);
    assert v == 512 * (v / 512) + v % 512 && page == 512 * (page / 512) + page % 512;
  }

  lemma {:induction false} UpperDigits(page: nat)
    requires page < VIRTUAL_PAGES
    ensures page / 512 == 0x4_0000 * Digit(page, 3) + 512 * Digit(page, 2) + Digit(page, 1)
  {
    DivDiv(page, 512);
    DivDiv(page, 0x4_0000);
    TopDigit(page);
  }

  lemma {:induction false} SameGib(v: nat, page: nat)
    requires v < VIRTUAL_PAGES && page < VIRTUAL_PAGES
    ensures SameLeaf(v, page, 2) <==> Digit(v, 3) == Digit(page, 3) && Digit(v, 2) == Digit(page, 2)
  {
    DivDiv(v, 0x4_0000);
    DivDiv(page, 0x4_0000);
    TopDigit(v);
    TopDigit(page);
  }

  /** The write at the end of the walk keeps the invariant and every page under another entry. */
  lemma {:induction false} LeafKeeps(w: World, root: nat, t: nat, leaf: nat, page: nat, e: Word)
    requires Inv(w, root) && leaf <= 1 && page < VIRTUAL_PAGES && Tab(w.mem, root, PathOf(page, 3 - leaf)) == At(t)
    requires leaf == 0 || Large(e)
    ensures var w' := WriteLeaf(w, t, Digit(page, leaf), e);
            && Inv(w', root) && TablesGrown(w, w', root)
            && (forall v: nat :: v < VIRTUAL_PAGES && !SameLeaf(v, page, leaf) ==>
                  Translate(w'.mem, root, v) == Translate(w.mem, root, v))
  {
    var p, i := PathOf(page, 3 - leaf), Digit(page, leaf);
    var w' := WriteLeaf(w, t, i, e);
    PathStep(page, 3 - leaf);
    LeafTree(w.mem, w'.mem, root, p, t, i, e);
    forall v: nat | v < VIRTUAL_PAGES && !SameLeaf(v, page, leaf)
      ensures Translate(w'.mem, root, v) == Translate(w.mem, root, v)
    {
      SameLeafPath(v, page, leaf);
      PathPrefix(v, 4 - leaf);
      assert PathOf(v, 4)[..4 - leaf] == PathOf(v, 4 - leaf);
      WalkKept(w.mem, w'.mem, root, p, t, i, e, root, 3, leaf, v, e);
    }
  }

  /** Writing a present leaf: exactly the pages under the written entry get the new translation. */
  lemma {:induction false} LeafLevel(w: World, root: nat, t: nat, leaf: nat, page: nat, e: Word)
    requires Inv(w, root) && leaf <= 1 && page < VIRTUAL_PAGES && Tab(w.mem, root, PathOf(page, 3 - leaf)) == At(t)
    requires Present(e) && LeafShape(e, leaf)
    ensures var w' := WriteLeaf(w, t, Digit(page, leaf), e);
            && Inv(w', root) && TablesGrown(w, w', root)
            && (forall v: nat :: v < VIRTUAL_PAGES && !SameLeaf(v, page, leaf) ==>
                  Translate(w'.mem, root, v) == Translate(w.mem, root, v))
            && (forall v: nat :: v < VIRTUAL_PAGES && SameLeaf(v, page, leaf) ==>
                  Translate(w'.mem, root, v) == LeafTranslation(w.mem, root, leaf, v, e))
  {
    var p, i := PathOf(page, 3 - leaf), Digit(page, leaf);
    var w' := WriteLeaf(w, t, i, e);
    LeafKeeps(w, root, t, leaf, page, e);
    PathStep(page, 3 - leaf);
    forall v: nat | v < VIRTUAL_PAGES && SameLeaf(v, page, leaf)
      ensures Translate(w'.mem, root, v) == LeafTranslation(w.mem, root, leaf, v, e)
    {
      SameLeafPath(v, page, leaf);
      PathPrefix(v, 4 - leaf);
      LeafWalk(w.mem, w'.mem, root, p, t, i, e, root, 3, leaf, v);
    }
  }

  /** What a leaf entry gives a page below it: its frame and low bits, and its rights as far
      as the entries above it allow them. */
  function LeafTranslation(m: Memory, root: nat, leaf: nat, page: nat, e: Word): Translation {
    var (w, u) := Rights(m, root, 3, leaf, page, e);
    LeafMapping(e, leaf, page).(writable := w, user := u)
  }

  lemma {:induction false} RightsByFlags(m: Memory, table: nat, level: nat, leaf: nat, page: nat, e: Word, flags: Word)
    requires Writable(e) == Writable(flags) && User(e) == User(flags)
    ensures Rights(m, table, level, leaf, page, e) == Rights(m, table, level, leaf, page, flags)
    decreases level
  {
    var c := EntryAt(m, table, Digit(page, level));
    if level > leaf && Child(c).At? { RightsByFlags(m, FrameOf(c), level - 1, leaf, page, e, flags); }
  }

  lemma {:induction false} SmallLeaf(w: World, root: nat, t: nat, page: nat, phys: Word, flags: Word)
    requires Standing(w, root, 3, t, 0, page) && page < VIRTUAL_PAGES && Present(flags)
    ensures var w' := WriteLeaf(w, t, Digit(page, 0), MakeEntry(phys, flags));
            && Inv(w', root) && TablesGrown(w, w', root)
            && (forall v: nat :: v < VIRTUAL_PAGES && v != page ==>
                  Translate(w'.mem, root, v) == Translate(w.mem, root, v))
            && Translate(w'.mem, root, page) == SmallTranslation(w.mem, root, page, phys, flags)
  {
    var e := MakeEntry(phys, flags);
    EntryBits(phys, flags);
    LeafLevel(w, root, t, 0, page, e);
    RightsByFlags(w.mem, root, 3, 0, page, e, flags);
    forall v: nat | v != page
      ensures !SameLeaf(v, page, 0)
    {
    }
    assert SameLeaf(page, page, 0);
    assert LeafFrame(e, 0, page) == FrameOf(phys);
  }

  /** The translation that a 4 KiB mapping asks for: the frame of `phys`, the low flag bits,
      and the rights of the flags as far as the entries above allow them. */
  function SmallTranslation(m: Memory, root: nat, page: nat, phys: Word, flags: Word): Translation {
    var (w, u) := Rights(m, root, 3, 0, page, flags);
    Mapped(FrameOf(phys), LowBits(flags), w, u, 0)
  }

  ghost predicate Updated(m: Memory, m': Memory, root: nat, page: nat, t: Translation) {
    forall v: nat :: v < VIRTUAL_PAGES ==> Translate(m', root, v) == if v == page then t else Translate(m, root, v)
  }

  /** A call from table t, n levels below the root, on: down to level `leaf`, where e is
      written. */
  function MapFrom(w: World, n: nat, t: nat, leaf: nat, page: nat, e: Word, flags: Word): (World, bool)
    requires Sane(w) && n + leaf <= 3
    decreases 3 - n
  {
    if n + leaf == 3 then (WriteLeaf(w, t, Digit(page, leaf), e), true)
    else
      var (w', c) := EnsureTable(w, t, Digit(page, 3 - n), flags);
      if c.Absent? then (w', false) else MapFrom(w', n + 1, c.frame, leaf, page, e, flags)
  }

  lemma {:induction false} MapFromStep(w: World, n: nat, t: nat, leaf: nat, page: nat, e: Word, flags: Word)
    requires Sane(w) && n + leaf < 3
    ensures var (w', c) := EnsureTable(w, t, Digit(page, 3 - n), flags);
            MapFrom(w, n, t, leaf, page, e, flags)
              == if c.Absent? then (w', false) else MapFrom(w', n + 1, c.frame, leaf, page, e, flags)
  {
  }

  lemma {:induction false} MapSmallLevels(w: World, root: nat, virt: Word, phys: Word, flags: Word)
    requires Sane(w)
    ensures MapSmall(w, root, virt, phys, flags) == MapFrom(w, 0, root, 0, PageOf(virt), MakeEntry(phys, flags), flags)
  {
    var page, e := PageOf(virt), MakeEntry(phys, flags);
    IndexDigit(virt, 3);
    IndexDigit(virt, 2);
    IndexDigit(virt, 1);
    IndexDigit(virt, 0);
    MapFromStep(w, 0, root, 0, page, e, flags);
    var (w3, t3) := EnsureTable(w, root, Digit(page, 3), flags);
    if t3.At? {
      MapFromStep(w3, 1, t3.frame, 0, page, e, flags);
      var (w2, t2) := EnsureTable(w3, t3.frame, Digit(page, 2), flags);
      if t2.At? { MapFromStep(w2, 2, t2.frame, 0, page, e, flags); }
    }
  }

  lemma {:induction false} MapHugeLevels(w: World, root: nat, virt: Word, phys: Word, flags: Word)
    requires Sane(w)
    ensures MapHuge(w, root, virt, phys, flags)
         == MapFrom(w, 0, root, 1, PageOf(virt), MakeHugeEntry(phys, flags), flags)
  {
    var page, e := PageOf(virt), MakeHugeEntry(phys, flags);
    IndexDigit(virt, 3);
    IndexDigit(virt, 2);
    IndexDigit(virt, 1);
    MapFromStep(w, 0, root, 1, page, e, flags);
    var (w3, t3) := EnsureTable(w, root, Digit(page, 3), flags);
    if t3.At? { MapFromStep(w3, 1, t3.frame, 1, page, e, flags); }
  }

  lemma {:induction false} MapCallLevels(w: World, root: nat, virt: Word, phys: Word, flags: Word)
    requires Sane(w)
    ensures MapCall(w, root, virt, phys, flags)
         == MapFrom(w, 0, root, LeafOf(flags), PageOf(virt), LeafEntry(phys, flags), flags)
  {
    if Large(flags) {
      MapHugeLevels(w, root, virt, phys, flags);
    } else {
      MapSmallLevels(w, root, virt, phys, flags);
    }
  }

  ghost predicate Refines(w: World, r: (World, bool), root: nat, page: nat, phys: Word, flags: Word) {
    && Inv(r.0, root)
    && Updated(w.mem, r.0.mem, root, page,
               if r.1 then SmallTranslation(w.mem, root, page, phys, flags) else Translate(w.mem, root, page))
  }

  lemma {:induction false} RefinesAfter(w: World, w': World, r: (World, bool), root: nat, page: nat, phys: Word,
                                        flags: Word)
    requires SameTranslations(w, w', root, flags) && Refines(w', r, root, page, phys, flags)
    ensures Refines(w, r, root, page, phys, flags)
  {
    assert SmallTranslation(w'.mem, root, page, phys, flags) == SmallTranslation(w.mem, root, page, phys, flags);
  }

  /** Where the rest of a 4 KiB call ends. */
  function SmallFrom(w: World, n: nat, t: nat, page: nat, phys: Word, flags: Word): (World, bool)
    requires Sane(w) && n <= 3
  {
    MapFrom(w, n, t, 0, page, MakeEntry(phys, flags), flags)
  }

  lemma {:induction false} MapFromRefines(w: World, root: nat, n: nat, t: nat, page: nat, phys: Word, flags: Word)
    requires Standing(w, root, n, t, 0, page) && page < VIRTUAL_PAGES && Present(flags) && !Large(flags)
    ensures Refines(w, SmallFrom(w, n, t, page, phys, flags), root, page, phys, flags)
    decreases 3 - n
  {
    if n == 3 {
      SmallLeaf(w, root, t, page, phys, flags);
    } else {
      Descend(w, root, n, t, 0, page, flags);
      var (w', c) := EnsureTable(w, t, Digit(page, 3 - n), flags);
      if c.At? {
        MapFromRefines(w', root, n + 1, c.frame, page, phys, flags);
        RefinesAfter(w, w', SmallFrom(w', n + 1, c.frame, page, phys, flags), root, page, phys, flags);
      }
    }
  }

  lemma {:induction false} MapFromGranted(w: World, root: nat, n: nat, t: nat, page: nat, e: Word, flags: Word)
    requires Standing(w, root, n, t, 0, page) && Present(flags) && !Large(flags)
    ensures MapFrom(w, n, t, 0, page, e, flags).1 <==> Granted(w.table, Missing(w.mem, t, 3 - n, 0, page))
    decreases 3 - n
  {
    if n < 3 {
      Descend(w, root, n, t, 0, page, flags);
      DescendNeeds(w, root, n, t, 0, page, flags);
      var (w', c) := EnsureTable(w, t, Digit(page, 3 - n), flags);
      if c.At? { MapFromGranted(w', root, n + 1, c.frame, page, e, flags); }
    }
  }

  /** The 4 KiB branch refines a point update of the translation. It succeeds exactly when
      the allocator grants the missing tables. Then the page of `virt` translates to the frame
      of `phys` and every other page translates as before; on failure every page does. */
  lemma {:induction false} MapSmallRefines(w: World, root: nat, virt: Word, phys: Word, flags: Word)
    requires Inv(w, root) && Present(flags) && !Large(flags)
    requires NoLarge(w.mem, root, 3, 0, PageOf(virt))
    ensures var (w', done) := MapSmall(w, root, virt, phys, flags);
            var page := PageOf(virt);
            && Inv(w', root)
            && (done <==> Granted(w.table, Missing(w.mem, root, 3, 0, page)))
            && Updated(w.mem, w'.mem, root, page,
                       if done then SmallTranslation(w.mem, root, page, phys, flags) else Translate(w.mem, root, page))
  {
    assert PathOf(PageOf(virt), 0) == [];
    MapSmallLevels(w, root, virt, phys, flags);
    MapFromRefines(w, root, 0, root, PageOf(virt), phys, flags);
    MapFromGranted(w, root, 0, root, PageOf(virt), MakeEntry(phys, flags), flags);
  }

  /** The frame is that of `phys` itself exactly when `phys` fits in 52 address bits. */
  lemma {:induction false} FrameExact(phys: Word)
    ensures PAGE_SIZE * FrameOf(phys) == phys - phys % PAGE_SIZE <==> phys < MAX_ADDRESS
  {
  }

  /** Every table entry already present above the leaf has the rights that the flags ask for. */
  predicate Grants(m: Memory, table: nat, level: nat, leaf: nat, page: nat, flags: Word)
    decreases level
  {
    var e := EntryAt(m, table, Digit(page, level));
    level <= leaf || Child(e).Absent? ||
    (&& (Writable(flags) ==> Writable(e)) && (User(flags) ==> User(e))
     && Grants(m, FrameOf(e), level - 1, leaf, page, flags))
  }

  /** A mapping never has more rights than its flags, and has exactly those if and only if the
      entries above grant them. */
  lemma {:induction false} RightsBound(m: Memory, table: nat, level: nat, leaf: nat, page: nat, flags: Word)
    ensures var (w, u) := Rights(m, table, level, leaf, page, flags);
            (w ==> Writable(flags)) && (u ==> User(flags))
    ensures Rights(m, table, level, leaf, page, flags) == (Writable(flags), User(flags)) <==>
              Grants(m, table, level, leaf, page, flags)
    decreases level
  {
    var e := EntryAt(m, table, Digit(page, level));
    if level > leaf && Child(e).At? { RightsBound(m, FrameOf(e), level - 1, leaf, page, flags); }
  }
}
