/** Exactly when `map_page` keeps its promise: missing tables, the PRESENT flag, large pages and
    malformed entries in the way, rights that the upper tables withhold, and calls that fail. */
module MapConditions {
  import opened Words
  import opened RegionTable
  import opened Pmm
  import opened PageWalk
  import opened PageMapping
  import opened CallSteps

  /** The translation that a 2 MiB mapping asks for at a page of its block. */
  function HugeTranslation(m: Memory, root: nat, page: nat, phys: Word, flags: Word): Translation {
    var (w, u) := Rights(m, root, 3, 1, page, flags);
    Mapped(FrameOf(phys) / 512 * 512 + page % 512, LowBits(flags), w, u, 1)
  }

  /** All pages of the block are mapped as asked, and no other page is affected. */
  ghost predicate BlockUpdated(m: Memory, m': Memory, root: nat, page: nat, phys: Word, flags: Word) {
    forall v: nat :: v < VIRTUAL_PAGES ==>
      Translate(m', root, v) ==
        if SameLeaf(v, page, 1) then HugeTranslation(m, root, v, phys, flags) else Translate(m, root, v)
  }

  lemma {:induction false} HugeEntryBits(phys: Word, flags: Word)
    requires Present(flags) && Large(flags)
    ensures var e := MakeHugeEntry(phys, flags);
            && Present(e) && Large(e) && Writable(e) == Writable(flags) && User(e) == User(flags)
            && LowBits(e) == LowBits(flags) && LeafShape(e, 1)
            && FrameOf(e) / 512 * 512 == FrameOf(phys) / 512 * 512
  {
    HugeNotReserved(phys, flags);
    HugeBase(phys);
    HugeIsEntry(phys, flags);
    EntryBits(phys - phys % 0x20_0000, flags);
  }

  /** Leaf entries have the page-size bit and the PRESENT bit of the flags. */
  lemma {:induction false} LeafEntryBits(phys: Word, flags: Word)
    ensures Large(flags) ==> Large(LeafEntry(phys, flags)) && Large(MakeHugeEntry(phys, flags))
    ensures Present(LeafEntry(phys, flags)) == Present(flags)
  {
    EntryBits(phys, flags);
    HugeIsEntry(phys, flags);
    EntryBits(phys - phys % 0x20_0000, flags);
  }

  /** A 2 MiB leaf is the 4 KiB leaf of the block's first page. */
  lemma {:induction false} HugeIsEntry(phys: Word, flags: Word)
    ensures MakeHugeEntry(phys, flags) == MakeEntry(phys - phys % 0x20_0000, flags)
  {
    HugeBase(phys);
  }

  lemma {:induction false} HugeNotReserved(phys: Word, flags: Word)
    ensures !Reserved(MakeHugeEntry(phys, flags), 1)
  {
    var k, b := phys / 0x20_0000, flags % PAGE_SIZE;
    assert MakeHugeEntry(phys, flags) == 0x2000 * (256 * k) + b;
    assert MakeHugeEntry(phys, flags) / 0x2000 == 256 * k;
  }

  lemma {:induction false} HugeBase(phys: Word)
    ensures var base := phys - phys % 0x20_0000;
            base % PAGE_SIZE == 0 && FrameOf(base) / 512 * 512 == FrameOf(phys) / 512 * 512
  {
    var k, r := phys / 0x20_0000, phys / PAGE_SIZE % 512;
    BlockPages(phys);
    PagePart(512 * k, 0);
    BlockFrame(k, r);
    BlockFrame(k, 0);
  }

  lemma {:induction false} BlockPages(phys: Word)
    ensures phys / PAGE_SIZE == 512 * (phys / 0x20_0000) + phys / PAGE_SIZE % 512
    ensures phys - phys % 0x20_0000 == PAGE_SIZE * (512 * (phys / 0x20_0000))
  {
    assert phys / 0x20_0000 == phys / PAGE_SIZE / 512;
  }

  lemma {:induction false} BlockFrame(k: nat, r: nat)
    requires r < 512
    ensures (512 * k + r) % FRAMES / 512 * 512 == 512 * (k % (FRAMES / 512))
  {
    var q, s := k / (FRAMES / 512), k % (FRAMES / 512);
    assert 512 * k + r == FRAMES * q + (512 * s + r);
    assert (512 * k + r) % FRAMES == 512 * s + r;
  }

  /** The 2 MiB leaf write. */
  lemma {:induction false} HugeLeaf(w: World, root: nat, t: nat, page: nat, phys: Word, flags: Word)
    requires Inv(w, root) && OnTree(w.mem, root, 2, t, page) && page < VIRTUAL_PAGES && Present(flags) && Large(flags)
    ensures var w' := WriteLeaf(w, t, Digit(page, 1), MakeHugeEntry(phys, flags));
            Inv(w', root) && BlockUpdated(w.mem, w'.mem, root, page, phys, flags)
  {
    var e := MakeHugeEntry(phys, flags);
    HugeEntryBits(phys, flags);
    LeafLevel(w, root, t, 1, page, e);
    forall v: nat | v < VIRTUAL_PAGES && SameLeaf(v, page, 1)
      ensures LeafTranslation(w.mem, root, 1, v, e) == HugeTranslation(w.mem, root, v, phys, flags)
    {
      RightsByFlags(w.mem, root, 3, 1, v, e, flags);
    }
  }

  /** With both upper entries present and neither of them large, the branch maps the whole
      block and nothing else. */
  lemma {:induction false} MapHugeRefines(w: World, root: nat, virt: Word, phys: Word, flags: Word)
    requires Inv(w, root) && Present(flags) && Large(flags)
    requires NoLarge(w.mem, root, 3, 1, PageOf(virt)) && Missing(w.mem, root, 3, 1, PageOf(virt)) == 0
    ensures var (w', done) := MapHuge(w, root, virt, phys, flags);
            done && Inv(w', root) && w'.table == w.table
            && BlockUpdated(w.mem, w'.mem, root, PageOf(virt), phys, flags)
  {
    var page := PageOf(virt);
    IndexDigit(virt, 3);
    IndexDigit(virt, 2);
    IndexDigit(virt, 1);
    var t3 := UpperFollow(w, root, 0, root, page, flags);
    var t2 := UpperFollow(w, root, 1, t3.frame, page, flags);
    HugeLeaf(w, root, t2.frame, page, phys, flags);
  }

  lemma {:induction false} UpperFollow(w: World, root: nat, n: nat, t: nat, page: nat, flags: Word)
    returns (c: TableRef)
    requires n < 2 && Inv(w, root) && Tab(w.mem, root, PathOf(page, n)) == At(t)
    requires NoLarge(w.mem, t, 3 - n, 1, page) && Present(EntryAt(w.mem, t, Digit(page, 3 - n)))
    ensures EnsureTable(w, t, Digit(page, 3 - n), flags) == (w, c)
    ensures c == Child(EntryAt(w.mem, t, Digit(page, 3 - n))) && c.At?
    ensures Tab(w.mem, root, PathOf(page, n + 1)) == c
    ensures NoLarge(w.mem, c.frame, 2 - n, 1, page)
  {
    c := EnsureTable(w, t, Digit(page, 3 - n), flags).1;
    PathStep(page, n);
    FollowLevel(w, root, PathOf(page, n), t, Digit(page, 3 - n), flags);
  }

  // ---------------------------------------------------------------- calls as a whole

  /** A call with any flags from the root. */
  lemma {:induction false} CallStarts(w: World, root: nat, virt: Word, phys: Word, flags: Word)
    requires Inv(w, root) && Passable(w.mem, root, root, 3, LeafOf(flags), PageOf(virt))
    ensures Calling(w, root, 0, root, LeafOf(flags), PageOf(virt), LeafEntry(phys, flags), flags)
    ensures OnTree(w.mem, root, 0, root, PageOf(virt))
    ensures MapCall(w, root, virt, phys, flags)
         == MapFrom(w, 0, root, LeafOf(flags), PageOf(virt), LeafEntry(phys, flags), flags)
  {
    assert PathOf(PageOf(virt), 0) == [];
    LeafEntryBits(phys, flags);
    MapCallLevels(w, root, virt, phys, flags);
  }

  /** A call that runs out of memory midway, whatever its flags, is invisible to every walk. */
  lemma {:induction false} FailedCall(w: World, root: nat, virt: Word, phys: Word, flags: Word)
    requires Inv(w, root) && Passable(w.mem, root, root, 3, LeafOf(flags), PageOf(virt))
    ensures var (w', done) := MapCall(w, root, virt, phys, flags);
            !done ==> Inv(w', root) && forall v :: Translate(w'.mem, root, v) == Translate(w.mem, root, v)
  {
    CallStarts(w, root, virt, phys, flags);
    FailedFrom(w, root, 0, root, LeafOf(flags), PageOf(virt), LeafEntry(phys, flags), flags);
  }

  /** Pages outside the one or the block that a call is for keep their mapping. */
  lemma {:induction false} CallKeepsOthers(w: World, root: nat, virt: Word, phys: Word, flags: Word)
    requires Inv(w, root) && Passable(w.mem, root, root, 3, LeafOf(flags), PageOf(virt))
    ensures var w' := MapCall(w, root, virt, phys, flags).0;
            Inv(w', root) && OthersKept(w.mem, w'.mem, root, LeafOf(flags), PageOf(virt), flags)
  {
    CallStarts(w, root, virt, phys, flags);
    OthersFrom(w, root, 0, root, LeafOf(flags), PageOf(virt), LeafEntry(phys, flags), flags);
  }

  /** Where an entry with the page-size bit stands above the leaf level, be it a large page or
      malformed, a call with any flags changes no translation, and `virt` is not mapped as
      asked. */
  lemma {:induction false} LargeEntryHides(w: World, root: nat, virt: Word, phys: Word, flags: Word)
    requires Inv(w, root) && Passable(w.mem, root, root, 3, LeafOf(flags), PageOf(virt))
    requires !NoLarge(w.mem, root, 3, LeafOf(flags), PageOf(virt))
    ensures var w' := MapCall(w, root, virt, phys, flags).0;
            && Inv(w', root) && (forall v :: Translate(w'.mem, root, v) == Translate(w.mem, root, v))
            && (var x := Translate(w'.mem, root, PageOf(virt)); x.Mapped? ==> x.level > LeafOf(flags))
  {
    CallStarts(w, root, virt, phys, flags);
    LargeFrom(w, root, 0, root, LeafOf(flags), PageOf(virt), LeafEntry(phys, flags), flags);
    LargeAbove(w.mem, root, 3, LeafOf(flags), PageOf(virt));
  }

  /** Without PRESENT in the flags the page of `virt` faults after a completed call. */
  lemma {:induction false} AbsentFaults(w: World, root: nat, virt: Word, phys: Word, flags: Word)
    requires Inv(w, root) && NoLarge(w.mem, root, 3, LeafOf(flags), PageOf(virt)) && !Present(flags)
    ensures var (w', done) := MapCall(w, root, virt, phys, flags);
            done ==> Translate(w'.mem, root, PageOf(virt)) == Fault
  {
    NoLargePassable(w.mem, root, root, 3, LeafOf(flags), PageOf(virt));
    CallStarts(w, root, virt, phys, flags);
    LeafEntryBits(phys, flags);
    AbsentFrom(w, root, 0, root, LeafOf(flags), PageOf(virt), LeafEntry(phys, flags), flags);
  }

  // ---------------------------------------------------------------- missing upper tables

  /** A page of the same GiB as `page`, but of another 2 MiB block. */
  function Elsewhere(page: nat): nat {
    if page % GIB_PAGES < 512 then page + 512 else page - 512
  }

  lemma {:induction false} ElsewhereIn(page: nat)
    requires page < VIRTUAL_PAGES
    ensures var v := Elsewhere(page); v < VIRTUAL_PAGES && SameLeaf(v, page, 2) && !SameLeaf(v, page, 1)
  {
  }

  /** The link of a missing second-level entry, with the HUGE bit and to a frame that makes it
      well formed, maps every page of the GiB. */
  lemma {:induction false} GibLinked(w: World, root: nat, t: nat, page: nat, flags: Word, v: nat)
    requires Inv(w, root) && GibLink(w, root, 1, t, page, flags)
    requires page < VIRTUAL_PAGES && v < VIRTUAL_PAGES && SameLeaf(v, page, 2)
    ensures var w' := EnsureTable(w, t, Digit(page, 2), flags).0;
            && Translate(w.mem, root, v) == Fault
            && Translate(w'.mem, root, v).Mapped? && Translate(w'.mem, root, v).level == 2
  {
    var w' := EnsureTable(w, t, Digit(page, 2), flags).0;
    SameGib(v, page);
    PathStep(page, 1);
    assert PathOf(v, 1) == PathOf(page, 1);
    DeadLink(w, root, PathOf(page, 1), t, Digit(page, 2), flags);
    LinkFaulty(w, root, 1, t, page, flags);
    EntryBits(TakePage(w).1, flags);
    FaultyBelow(w.mem, root, 1, t, v);
    LevelFound(w'.mem, root, v, 1, t);
  }

  /** Second-level entry missing: the new entry, with the HUGE bit, is a 1 GiB page. If the
      new frame is one of the first two of its GiB, pages outside the block become mapped;
      any other frame sets reserved bits, and the block itself faults. */
  lemma {:induction false} MissingSecondEntry(w: World, root: nat, t: nat, page: nat, e: Word, flags: Word)
    requires Calling(w, root, 1, t, 1, page, e, flags) && OnTree(w.mem, root, 1, t, page)
    requires Present(flags) && Large(flags) && !Present(EntryAt(w.mem, t, Digit(page, 2)))
    ensures var (w', done) := MapFrom(w, 1, t, 1, page, e, flags);
            var v := Elsewhere(page);
            done ==>
              if TakePage(w).1 / PAGE_SIZE % GIB_PAGES < 2
              then v < VIRTUAL_PAGES && !SameLeaf(v, page, 1)
                   && Translate(w'.mem, root, v) != Fault && Translate(w.mem, root, v) == Fault
              else Translate(w'.mem, root, page) == Fault
  {
    MapFromStep(w, 1, t, 1, page, e, flags);
    ElsewhereIn(page);
    FaultyBelow(w.mem, root, 1, t, page);
    TakePageKeeps(w, root);
    if Taken(w.table, PAGE_SIZE) {
      DeadStep(w, root, 1, t, 1, page, flags);
      var (w2, c) := EnsureTable(w, t, Digit(page, 2), flags);
      OffTreeFrom(w2, root, 2, c.frame, 1, page, e, flags);
      if GibLink(w, root, 1, t, page, flags) { GibLinked(w, root, t, page, flags, Elsewhere(page)); }
    }
  }

  /** Root entry missing: the new entry is malformed, and the block faults. */
  lemma {:induction false} MissingRootEntry(w: World, root: nat, page: nat, e: Word, flags: Word)
    requires Calling(w, root, 0, root, 1, page, e, flags) && OnTree(w.mem, root, 0, root, page)
    requires Large(flags) && !Present(EntryAt(w.mem, root, Digit(page, 3)))
    ensures var (w', done) := MapFrom(w, 0, root, 1, page, e, flags);
            done ==> Translate(w'.mem, root, page) == Fault
  {
    MapFromStep(w, 0, root, 1, page, e, flags);
    FaultyBelow(w.mem, root, 0, root, page);
    TakePageKeeps(w, root);
    if Taken(w.table, PAGE_SIZE) {
      DeadStep(w, root, 0, root, 1, page, flags);
      var (w3, c) := EnsureTable(w, root, Digit(page, 3), flags);
      OffTreeFrom(w3, root, 1, c.frame, 1, page, e, flags);
    }
  }

  // ---------------------------------------------------------------- the exact conditions

  /** The 2 MiB call does not map its block: the page of `virt` is not mapped by a 2 MiB page, or
      a page outside the block changes. */
  ghost predicate BlockMissed(m: Memory, m': Memory, root: nat, page: nat) {
    || Translate(m', root, page) == Fault || Translate(m', root, page).level != 1
    || (Elsewhere(page) < VIRTUAL_PAGES && !SameLeaf(Elsewhere(page), page, 1)
        && Translate(m', root, Elsewhere(page)) != Translate(m, root, Elsewhere(page)))
  }

  lemma {:induction false} MissingMissed(w: World, root: nat, virt: Word, phys: Word, flags: Word)
    requires Inv(w, root) && Large(flags) && Present(flags)
    requires NoLarge(w.mem, root, 3, 1, PageOf(virt)) && Missing(w.mem, root, 3, 1, PageOf(virt)) != 0
    ensures var (w', done) := MapHuge(w, root, virt, phys, flags);
            done ==> BlockMissed(w.mem, w'.mem, root, PageOf(virt))
  {
    var page, e := PageOf(virt), MakeHugeEntry(phys, flags);
    NoLargePassable(w.mem, root, root, 3, 1, page);
    CallStarts(w, root, virt, phys, flags);
    if !Present(EntryAt(w.mem, root, Digit(page, 3))) {
      MissingRootEntry(w, root, page, e, flags);
    } else {
      MapFromStep(w, 0, root, 1, page, e, flags);
      FollowStep(w, root, 0, root, 1, page, flags);
      var t := FrameOf(EntryAt(w.mem, root, Digit(page, 3)));
      MissingSecondEntry(w, root, t, page, e, flags);
    }
  }

  lemma {:induction false} HugeMissed(w: World, root: nat, virt: Word, phys: Word, flags: Word)
    requires Inv(w, root) && Large(flags) && Passable(w.mem, root, root, 3, 1, PageOf(virt))
    requires var page := PageOf(virt);
             !(Present(flags) && NoLarge(w.mem, root, 3, 1, page) && Missing(w.mem, root, 3, 1, page) == 0)
    ensures var (w', done) := MapHuge(w, root, virt, phys, flags);
            done ==> BlockMissed(w.mem, w'.mem, root, PageOf(virt))
  {
    if !NoLarge(w.mem, root, 3, 1, PageOf(virt)) {
      LargeEntryHides(w, root, virt, phys, flags);
    } else if !Present(flags) {
      AbsentFaults(w, root, virt, phys, flags);
    } else {
      MissingMissed(w, root, virt, phys, flags);
    }
  }

  /** A completed 2 MiB call maps its block, with rights as far as the upper tables allow, and
      nothing else, exactly when the flags contain PRESENT and both upper tables exist
      beforehand, neither entry having the page-size bit. */
  lemma {:induction false} MapHugeIff(w: World, root: nat, virt: Word, phys: Word, flags: Word)
    requires Inv(w, root) && Large(flags) && Passable(w.mem, root, root, 3, 1, PageOf(virt))
    ensures var (w', done) := MapHuge(w, root, virt, phys, flags);
            var complete := NoLarge(w.mem, root, 3, 1, PageOf(virt)) && Missing(w.mem, root, 3, 1, PageOf(virt)) == 0;
            done ==> (BlockUpdated(w.mem, w'.mem, root, PageOf(virt), phys, flags) <==> Present(flags) && complete)
  {
    var page := PageOf(virt);
    assert SameLeaf(page, page, 1);
    if Present(flags) && NoLarge(w.mem, root, 3, 1, page) && Missing(w.mem, root, 3, 1, page) == 0 {
      MapHugeRefines(w, root, virt, phys, flags);
    } else {
      HugeMissed(w, root, virt, phys, flags);
    }
  }

  lemma {:induction false} SmallMissed(w: World, root: nat, virt: Word, phys: Word, flags: Word)
    requires Inv(w, root) && !Large(flags) && Passable(w.mem, root, root, 3, 0, PageOf(virt))
    requires !(Present(flags) && NoLarge(w.mem, root, 3, 0, PageOf(virt)))
    ensures var (w', done) := MapSmall(w, root, virt, phys, flags);
            done ==> Translate(w'.mem, root, PageOf(virt)) == Fault || Translate(w'.mem, root, PageOf(virt)).level > 0
  {
    if !NoLarge(w.mem, root, 3, 0, PageOf(virt)) {
      LargeEntryHides(w, root, virt, phys, flags);
    } else {
      AbsentFaults(w, root, virt, phys, flags);
    }
  }

  /** A completed 4 KiB call maps its page, with rights as far as the upper tables allow, and
      nothing else, exactly when its flags contain PRESENT and no entry with the page-size bit
      is in its way. */
  lemma {:induction false} MapSmallIff(w: World, root: nat, virt: Word, phys: Word, flags: Word)
    requires Inv(w, root) && !Large(flags) && Passable(w.mem, root, root, 3, 0, PageOf(virt))
    ensures var (w', done) := MapSmall(w, root, virt, phys, flags);
            var target := SmallTranslation(w.mem, root, PageOf(virt), phys, flags);
            done ==> (Updated(w.mem, w'.mem, root, PageOf(virt), target) <==>
                        Present(flags) && NoLarge(w.mem, root, 3, 0, PageOf(virt)))
  {
    if Present(flags) && NoLarge(w.mem, root, 3, 0, PageOf(virt)) {
      MapSmallRefines(w, root, virt, phys, flags);
    } else {
      SmallMissed(w, root, virt, phys, flags);
    }
  }

  // ---------------------------------------------------------------- what the failing call leaves

  /** Frame z is no table, and neither is any frame that its entries refer to. */
  ghost predicate Trail(m: Memory, root: nat, z: nat) {
    && NoTable(m, root, z)
    && forall d: nat :: d < ENTRIES && Present(EntryAt(m, z, d)) ==> NoTable(m, root, EntryAt(m, z, d) / PAGE_SIZE)
  }

  lemma {:induction false} ZeroKept(w: World, z: nat)
    requires Sane(w) && ZeroFrame(w.mem, z)
    ensures ZeroFrame(TakePage(w).0.mem, z)
  {
    forall d: nat | d < ENTRIES
      ensures EntryAt(TakePage(w).0.mem, z, d) == 0
    {
      assert EntryAt(w.mem, z, d) == 0;
    }
  }

  /** The tree and the entries of the root are as before. */
  ghost predicate RootKept(m: Memory, m': Memory, root: nat) {
    && (forall q :: IsPath(q) ==> Tab(m', root, q) == Tab(m, root, q))
    && forall d: nat :: d < ENTRIES ==> EntryAt(m', root, d) == EntryAt(m, root, d)
  }

  lemma {:induction false} SameRoot(m: Memory, m': Memory, root: nat)
    requires SameTables(m, m', root) && forall q :: IsPath(q) ==> Tab(m', root, q) == Tab(m, root, q)
    ensures RootKept(m, m', root)
  {
    assert IsPath([]) && Tab(m, root, []) == At(root);
  }

  /** The root link of a 2 MiB call. */
  lemma {:induction false} RootLink(w: World, root: nat, page: nat, flags: Word)
    requires Inv(w, root) && Present(flags) && Large(flags) && Taken(w.table, PAGE_SIZE)
    requires !Present(EntryAt(w.mem, root, Digit(page, 3)))
    ensures var (w3, c) := EnsureTable(w, root, Digit(page, 3), flags);
            var e := EntryAt(w3.mem, root, Digit(page, 3));
            && c.At? && Inv(w3, root) && NoTable(w3.mem, root, c.frame) && ZeroFrame(w3.mem, c.frame)
            && FrameInUse(w3.table, c.frame) && ENTRIES * c.frame + ENTRIES <= |w3.mem|
            && Present(e) && Large(e) && e / PAGE_SIZE == c.frame == FrameOf(e)
  {
    TakePageKeeps(w, root);
    assert Tab(w.mem, root, []) == At(root) && IsPath([]);
    DeadLink(w, root, [], root, Digit(page, 3), flags);
    EntryBits(TakePage(w).1, flags);
  }

  /** The second link, in a zeroed frame outside the tree. */
  lemma {:induction false} TrailLink(w: World, root: nat, z: nat, i: nat, flags: Word)
    requires Inv(w, root) && NoTable(w.mem, root, z) && ZeroFrame(w.mem, z) && FrameInUse(w.table, z)
    requires i < ENTRIES && ENTRIES * z + ENTRIES <= |w.mem| && Taken(w.table, PAGE_SIZE)
    ensures var (w', c) := EnsureTable(w, z, i, flags);
            && c.At? && c.frame != z && Inv(w', root) && NoTable(w'.mem, root, c.frame) && RootKept(w.mem, w'.mem, root)
            && (forall d: nat :: d < ENTRIES && d != i ==> EntryAt(w'.mem, z, d) == 0)
            && EntryAt(w'.mem, z, i) / PAGE_SIZE == c.frame && Present(EntryAt(w'.mem, z, i)) == Present(flags)
  {
    assert EntryAt(w.mem, z, i) == 0;
    TakePageKeeps(w, root);
    ZeroKept(w, z);
    TakenSame(w, root);
    var (w1, addr) := TakePage(w);
    EntryBits(addr, flags);
    OffTreeLevel(w, root, z, i, flags);
    OffTreeWrite(w1.mem, root, z, i, MakeEntry(addr, flags));
    SameRoot(w.mem, w1.mem, root);
    SameRoot(w1.mem, SetEntry(w1.mem, z, i, MakeEntry(addr, flags)), root);
    assert addr / PAGE_SIZE != z by { assert FreeByte(w.table, PAGE_SIZE * (addr / PAGE_SIZE)); }
    SetInZero(w1.mem, z, i, MakeEntry(addr, flags));
  }

  lemma {:induction false} SetInZero(m: Memory, z: nat, i: nat, e: Word)
    requires ZeroFrame(m, z) && i < ENTRIES && ENTRIES * z + ENTRIES <= |m|
    ensures EntryAt(SetEntry(m, z, i, e), z, i) == e
    ensures forall d: nat :: d < ENTRIES && d != i ==> EntryAt(SetEntry(m, z, i, e), z, d) == 0
  {
    forall d: nat | d < ENTRIES && d != i
      ensures EntryAt(SetEntry(m, z, i, e), z, d) == 0
    {
      assert EntryAt(m, z, d) == 0;
    }
  }

  /** The leaf write, in the frame linked there. */
  lemma {:induction false} TrailLeaf(m: Memory, root: nat, z: nat, i: nat, y: nat, j: nat, e: Word)
    requires Tree(m, root) && NoTable(m, root, z) && NoTable(m, root, y) && y != z && j < ENTRIES && i < ENTRIES
    requires forall d: nat :: d < ENTRIES && d != i ==> EntryAt(m, z, d) == 0
    requires EntryAt(m, z, i) / PAGE_SIZE == y
    ensures var m' := SetEntry(m, y, j, e);
            Trail(m', root, z) && RootKept(m, m', root) && EntryAt(m', z, i) == EntryAt(m, z, i)
  {
    var m' := SetEntry(m, y, j, e);
    OffTreeWrite(m, root, y, j, e);
    SameRoot(m, m', root);
    forall d: nat | d < ENTRIES
      ensures EntryAt(m', z, d) == EntryAt(m, z, d)
    {
    }
  }

  lemma {:induction false} DeadTrail(w: World, root: nat, z: nat, page: nat, e: Word, flags: Word)
    requires Inv(w, root) && NoTable(w.mem, root, z) && ZeroFrame(w.mem, z) && FrameInUse(w.table, z) && Present(flags)
    requires ENTRIES * z + ENTRIES <= |w.mem| && MapFrom(w, 1, z, 1, page, e, flags).1
    ensures var m := MapFrom(w, 1, z, 1, page, e, flags).0.mem;
            Trail(m, root, z) && RootKept(w.mem, m, root) && Present(EntryAt(m, z, Digit(page, 2)))
  {
    var i := Digit(page, 2);
    MapFromStep(w, 1, z, 1, page, e, flags);
    TakePageKeeps(w, root);
    assert EntryAt(w.mem, z, i) == 0;
    TrailLink(w, root, z, i, flags);
    var (w', c) := EnsureTable(w, z, i, flags);
    TrailLeaf(w'.mem, root, z, i, c.frame, Digit(page, 1), e);
  }

  /** The entry at the root is malformed and leads out of the tree. */
  ghost predicate Malformed(m: Memory, root: nat, page: nat) {
    var e := EntryAt(m, root, Digit(page, 3));
    Present(e) && Large(e) && e / PAGE_SIZE == FrameOf(e) && Trail(m, root, e / PAGE_SIZE)
  }

  lemma {:induction false} LeavesMalformed(w: World, root: nat, page: nat, e: Word, flags: Word)
    requires Inv(w, root) && Present(flags) && Large(flags) && page < VIRTUAL_PAGES
    requires !Present(EntryAt(w.mem, root, Digit(page, 3))) && MapFrom(w, 0, root, 1, page, e, flags).1
    ensures var m := MapFrom(w, 0, root, 1, page, e, flags).0.mem;
            && Malformed(m, root, page)
            && Present(EntryAt(m, EntryAt(m, root, Digit(page, 3)) / PAGE_SIZE, Digit(page, 2)))
  {
    MapFromStep(w, 0, root, 1, page, e, flags);
    TakePageKeeps(w, root);
    RootLink(w, root, page, flags);
    var (w3, c) := EnsureTable(w, root, Digit(page, 3), flags);
    DeadTrail(w3, root, c.frame, page, e, flags);
  }

  /** A completed 2 MiB call on a missing root entry leaves a malformed entry behind: no later
      2 MiB call below that entry changes any translation, and for the same block both upper
      tables now seem to be there. */
  lemma {:induction false} MalformedRootStays(w: World, root: nat, virt: Word, phys: Word, flags: Word,
                                              virt': Word, phys': Word, flags': Word)
    requires Inv(w, root) && Present(flags) && Large(flags) && Large(flags') && Index(virt', 3) == Index(virt, 3)
    requires !Present(EntryAt(w.mem, root, Index(virt, 3))) && MapHuge(w, root, virt, phys, flags).1
    ensures var w1 := MapHuge(w, root, virt, phys, flags).0;
            var (w2, done) := MapHuge(w1, root, virt', phys', flags');
            && Inv(w1, root) && Inv(w2, root) && Passable(w1.mem, root, root, 3, 1, PageOf(virt'))
            && (forall v :: Translate(w2.mem, root, v) == Translate(w1.mem, root, v))
            && Translate(w2.mem, root, PageOf(virt')) == Fault
            && (virt' == virt ==> done && Missing(w1.mem, root, 3, 1, PageOf(virt)) == 0)
  {
    var page, page' := PageOf(virt), PageOf(virt');
    var w1 := MapHuge(w, root, virt, phys, flags).0;
    IndexDigit(virt, 3);
    IndexDigit(virt', 3);
    RootAbsent(w, root, virt, phys, flags);
    LeavesMalformed(w, root, page, MakeHugeEntry(phys, flags), flags);
    TrailPassable(w1.mem, root, page');
    LargeEntryHides(w1, root, virt', phys', flags');
    assert PathOf(page', 0) == [];
    FaultyBelow(w1.mem, root, 0, root, page');
    if virt' == virt {
      MapHugeLevels(w1, root, virt, phys', flags');
      TwoPresent(w1, root, page, MakeHugeEntry(phys', flags'), flags');
    }
  }

  lemma {:induction false} RootAbsent(w: World, root: nat, virt: Word, phys: Word, flags: Word)
    requires Inv(w, root) && Large(flags) && !Present(EntryAt(w.mem, root, Index(virt, 3)))
    ensures MapHuge(w, root, virt, phys, flags)
         == MapFrom(w, 0, root, 1, PageOf(virt), MakeHugeEntry(phys, flags), flags)
    ensures Inv(MapHuge(w, root, virt, phys, flags).0, root)
  {
    IndexDigit(virt, 3);
    MapHugeLevels(w, root, virt, phys, flags);
    CallKeepsOthers(w, root, virt, phys, flags);
  }

  lemma {:induction false} TrailPassable(m: Memory, root: nat, page: nat)
    requires Malformed(m, root, page)
    ensures Passable(m, root, root, 3, 1, page) && !NoLarge(m, root, 3, 1, page)
  {
    var z := EntryAt(m, root, Digit(page, 3)) / PAGE_SIZE;
    var d := EntryAt(m, z, Digit(page, 2));
    assert Present(d) ==> OffTree(m, root, d / PAGE_SIZE, 1, 1, page);
    assert OffTree(m, root, z, 2, 1, page);
  }

  lemma {:induction false} TwoPresent(w: World, root: nat, page: nat, e: Word, flags: Word)
    requires Sane(w) && Malformed(w.mem, root, page)
    requires Present(EntryAt(w.mem, EntryAt(w.mem, root, Digit(page, 3)) / PAGE_SIZE, Digit(page, 2)))
    ensures MapFrom(w, 0, root, 1, page, e, flags).1 && Missing(w.mem, root, 3, 1, page) == 0
  {
    var z := EntryAt(w.mem, root, Digit(page, 3)) / PAGE_SIZE;
    MapFromStep(w, 0, root, 1, page, e, flags);
    MapFromStep(w, 1, z, 1, page, e, flags);
    assert Missing(w.mem, z, 2, 1, page) == 0;
  }

  // ---------------------------------------------------------------- the rights asked for

  /** The mapping as the caller asks for it, with the rights of the flags. */
  function AskedSmall(phys: Word, flags: Word): Translation {
    Mapped(FrameOf(phys), LowBits(flags), Writable(flags), User(flags), 0)
  }

  function AskedHuge(page: nat, phys: Word, flags: Word): Translation {
    Mapped(FrameOf(phys) / 512 * 512 + page % 512, LowBits(flags), Writable(flags), User(flags), 1)
  }

  ghost predicate BlockAsked(m: Memory, m': Memory, root: nat, page: nat, phys: Word, flags: Word) {
    forall v: nat :: v < VIRTUAL_PAGES ==>
      Translate(m', root, v) == if SameLeaf(v, page, 1) then AskedHuge(v, phys, flags) else Translate(m, root, v)
  }

  lemma {:induction false} SmallAsked(m: Memory, root: nat, page: nat, phys: Word, flags: Word)
    ensures SmallTranslation(m, root, page, phys, flags) == AskedSmall(phys, flags) <==>
              Grants(m, root, 3, 0, page, flags)
  {
    RightsBound(m, root, 3, 0, page, flags);
  }

  lemma {:induction false} UpdatedOnce(m: Memory, m': Memory, root: nat, page: nat, x: Translation, y: Translation)
    requires page < VIRTUAL_PAGES && Updated(m, m', root, page, x)
    ensures Updated(m, m', root, page, y) <==> x == y
  {
    assert Translate(m', root, page) == x;
  }

  /** With the rights that the flags ask for, it does so exactly when, besides, every table entry
      already present above the page grants them. */
  lemma {:induction false} MapSmallAskedIff(w: World, root: nat, virt: Word, phys: Word, flags: Word)
    requires Inv(w, root) && !Large(flags) && Passable(w.mem, root, root, 3, 0, PageOf(virt))
    ensures var (w', done) := MapSmall(w, root, virt, phys, flags);
            var page := PageOf(virt);
            done ==> (Updated(w.mem, w'.mem, root, page, AskedSmall(phys, flags)) <==>
                        Present(flags) && NoLarge(w.mem, root, 3, 0, page) && Grants(w.mem, root, 3, 0, page, flags))
  {
    if Present(flags) && NoLarge(w.mem, root, 3, 0, PageOf(virt)) {
      MapSmallRefines(w, root, virt, phys, flags);
      var (w', done) := MapSmall(w, root, virt, phys, flags);
      var target := SmallTranslation(w.mem, root, PageOf(virt), phys, flags);
      SmallAsked(w.mem, root, PageOf(virt), phys, flags);
      if done { UpdatedOnce(w.mem, w'.mem, root, PageOf(virt), target, AskedSmall(phys, flags)); }
    } else {
      SmallMissed(w, root, virt, phys, flags);
    }
  }

  /** All pages of a block have the same entries above them. */
  lemma {:induction false} BlockGrants(m: Memory, table: nat, level: nat, v: nat, page: nat, flags: Word)
    requires level <= 3 && Digit(v, 3) == Digit(page, 3) && Digit(v, 2) == Digit(page, 2)
    ensures Grants(m, table, level, 1, v, flags) == Grants(m, table, level, 1, page, flags)
    decreases level
  {
    if level > 1 { BlockGrants(m, FrameOf(EntryAt(m, table, Digit(page, level))), level - 1, v, page, flags); }
  }

  lemma {:induction false} MapHugeAskedIff(w: World, root: nat, virt: Word, phys: Word, flags: Word)
    requires Inv(w, root) && Large(flags) && Passable(w.mem, root, root, 3, 1, PageOf(virt))
    ensures var (w', done) := MapHuge(w, root, virt, phys, flags);
            var page := PageOf(virt);
            var complete := NoLarge(w.mem, root, 3, 1, page) && Missing(w.mem, root, 3, 1, page) == 0;
            done ==> (BlockAsked(w.mem, w'.mem, root, page, phys, flags) <==>
                        Present(flags) && complete && Grants(w.mem, root, 3, 1, page, flags))
  {
    var page := PageOf(virt);
    assert SameLeaf(page, page, 1);
    if Present(flags) && NoLarge(w.mem, root, 3, 1, page) && Missing(w.mem, root, 3, 1, page) == 0 {
      MapHugeRefines(w, root, virt, phys, flags);
      RightsBound(w.mem, root, 3, 1, page, flags);
      forall v: nat | v < VIRTUAL_PAGES && SameLeaf(v, page, 1) && Grants(w.mem, root, 3, 1, page, flags)
        ensures HugeTranslation(w.mem, root, v, phys, flags) == AskedHuge(v, phys, flags)
      {
        SameLeafDigits(v, page, 1);
        BlockGrants(w.mem, root, 3, v, page, flags);
        RightsBound(w.mem, root, 3, 1, v, flags);
      }
    } else {
      HugeMissed(w, root, virt, phys, flags);
    }
  }

  // ---------------------------------------------------------------- a word of the large page

  /** The table that the walk passes before it reaches table t. */
  lemma {:induction false} ParentTable(w: World, root: nat, virt: Word, flags: Word, n: nat, t: nat) returns (f: nat)
    requires Inv(w, root) && n <= 2 && OnTree(w.mem, root, n + 1, t, PageOf(virt))
    ensures OnTree(w.mem, root, n, f, PageOf(virt))
    ensures Child(EntryAt(w.mem, f, Index(virt, 3 - n))) == At(t)
    ensures EnsureTable(w, f, Index(virt, 3 - n), flags) == (w, At(t))
  {
    var p := PathOf(PageOf(virt), n);
    IndexDigit(virt, 3 - n);
    PathStep(PageOf(virt), n);
    TabStep(w.mem, root, p, Index(virt, 3 - n));
    f := Tab(w.mem, root, p).frame;
    FollowLevel(w, root, p, f, Index(virt, 3 - n), flags);
  }

  lemma {:induction false} LargeFrame(e: Word, page: nat)
    requires e < MAX_ADDRESS
    ensures SameLeaf(e / PAGE_SIZE, LeafFrame(e, 1, page), 1)
  {
    assert FrameOf(e) == e / PAGE_SIZE;
    assert (FrameOf(e) / 512 * 512 + page % 512) / 512 == FrameOf(e) / 512;
  }

  /** The 4 KiB branch does not look at the page-size bit. Where a 2 MiB page already covers
      `virt`, the new entry overwrites a word of the page itself; unless that is a page table,
      no translation changes. */
  lemma {:induction false} LargePageHidesMapping(w: World, root: nat, virt: Word, phys: Word, flags: Word, t: nat)
    requires Inv(w, root) && OnTree(w.mem, root, 2, t, PageOf(virt))
    requires var e := EntryAt(w.mem, t, Index(virt, 1));
             Present(e) && Large(e)
    ensures var (w', done) := MapSmall(w, root, virt, phys, flags);
            var e, page := EntryAt(w.mem, t, Index(virt, 1)), PageOf(virt);
            && done && w' == WriteLeaf(w, e / PAGE_SIZE, Index(virt, 0), MakeEntry(phys, flags))
            && (e < MAX_ADDRESS ==> SameLeaf(e / PAGE_SIZE, LeafFrame(e, 1, page), 1))
            && (NoTable(w.mem, root, e / PAGE_SIZE) ==>
                  && Inv(w', root) && (forall v :: Translate(w'.mem, root, v) == Translate(w.mem, root, v))
                  && !Updated(w.mem, w'.mem, root, page, SmallTranslation(w.mem, root, page, phys, flags)))
  {
    var e := EntryAt(w.mem, t, Index(virt, 1));
    var t3 := ParentTable(w, root, virt, flags, 1, t);
    var t4 := ParentTable(w, root, virt, flags, 0, t3);
    assert PathOf(PageOf(virt), 0) == [];
    IndexDigit(virt, 1);
    LevelFound(w.mem, root, PageOf(virt), 2, t);
    if NoTable(w.mem, root, e / PAGE_SIZE) {
      OffTreeWrite(w.mem, root, e / PAGE_SIZE, Index(virt, 0), MakeEntry(phys, flags));
    }
    if e < MAX_ADDRESS { LargeFrame(e, PageOf(virt)); }
  }
}
