/** What a processor has cached of the page tables (section 4.10 of the Intel SDM, volume 3A),
    and what the single INVLPG of a `map_page` call leaves of it. */
module TlbFlush {
  import opened Words
  import opened RegionTable
  import opened Pmm
  import opened PageWalk
  import opened PageMapping
  import opened CallSteps
  import opened MapConditions

  /** Cached translations by page number; the level says how large the page was that was
      cached. */
  type Tlb = map<nat, Translation>

  /** Every cached translation is the current one. */
  ghost predicate Exact(m: Memory, root: nat, tlb: Tlb) {
    forall v: nat :: v in tlb ==> v < VIRTUAL_PAGES && tlb[v].Mapped? && tlb[v] == Translate(m, root, v)
  }

  /** INVLPG for `page` drops its entry, and all of a large page that was cached for it
      (section 4.10.4.1). */
  predicate Dropped(t: Translation, v: nat, page: nat) {
    v == page || (t.Mapped? && SameLeaf(v, page, t.level))
  }

  function Invlpg(tlb: Tlb, page: nat): Tlb {
    map v | v in tlb && !Dropped(tlb[v], v, page) :: tlb[v]
  }

  /** The cached translation does what the current one says, be its page smaller or larger. */
  predicate Serves(t: Translation, now: Translation) {
    t.Mapped? && now.Mapped? && t.(level := now.level) == now
  }

  ghost predicate Serving(m: Memory, root: nat, tlb: Tlb) {
    forall v: nat :: v in tlb ==> v < VIRTUAL_PAGES && Serves(tlb[v], Translate(m, root, v))
  }

  predicate FaultOrLarge(t: Translation) { t.Mapped? ==> t.level > 0 }

  /** No other page of the 2 MiB block is mapped by a 4 KiB entry. */
  ghost predicate BlockReady(m: Memory, root: nat, page: nat) {
    forall v: nat :: v < VIRTUAL_PAGES && v != page && SameLeaf(v, page, 1) ==> FaultOrLarge(Translate(m, root, v))
  }

  /** Every other page of the block that a 4 KiB entry maps has its new frame, flags and rights
      already. */
  ghost predicate BlockServes(m: Memory, root: nat, page: nat, phys: Word, flags: Word) {
    forall v: nat :: v < VIRTUAL_PAGES && v != page && SameLeaf(v, page, 1) ==>
      FaultOrLarge(Translate(m, root, v)) || Serves(Translate(m, root, v), HugeTranslation(m, root, v, phys, flags))
  }

  /** Two pages under one 2 MiB leaf are under one larger leaf. */
  lemma {:induction false} LargerLeaf(v: nat, page: nat, level: nat)
    requires SameLeaf(v, page, 1) && 0 < level
    ensures SameLeaf(v, page, level)
  {
    if level == 2 {
      assert v / 0x4_0000 == v / 512 / 512 && page / 0x4_0000 == page / 512 / 512;
    } else if level > 2 {
      assert v / 0x800_0000 == v / 512 / 0x4_0000 && page / 0x800_0000 == page / 512 / 0x4_0000;
    }
  }

  /** In the block, the flush drops everything but other pages cached from 4 KiB entries. */
  lemma {:induction false} DroppedInBlock(t: Translation, v: nat, page: nat)
    requires SameLeaf(v, page, 1) && t.Mapped?
    ensures Dropped(t, v, page) <==> v == page || t.level > 0
  {
    if t.level > 0 { LargerLeaf(v, page, t.level); }
  }

  lemma {:induction false} OneEntry(m: Memory, root: nat, v: nat, page: nat) returns (tlb: Tlb)
    requires v < VIRTUAL_PAGES && v != page && SameLeaf(v, page, 1) && !FaultOrLarge(Translate(m, root, v))
    ensures Exact(m, root, tlb) && v in Invlpg(tlb, page) && Invlpg(tlb, page)[v] == Translate(m, root, v)
  {
    tlb := map[v := Translate(m, root, v)];
    DroppedInBlock(tlb[v], v, page);
  }

  // ---------------------------------------------------------------- what a 2 MiB call changes

  /** The mapped pages outside the block translate as before. */
  ghost predicate OutsideKept(m: Memory, m': Memory, root: nat, page: nat) {
    forall v: nat :: v < VIRTUAL_PAGES && !SameLeaf(v, page, 1) && Translate(m, root, v).Mapped? ==>
      Translate(m', root, v) == Translate(m, root, v)
  }

  /** All pages of a block take the same entries above the leaf level. */
  lemma {:induction false} BlockAlike(m: Memory, table: nat, level: nat, v: nat, page: nat)
    requires level <= 3 && Digit(v, 3) == Digit(page, 3) && Digit(v, 2) == Digit(page, 2)
    ensures NoLarge(m, table, level, 1, v) == NoLarge(m, table, level, 1, page)
    ensures Missing(m, table, level, 1, v) == Missing(m, table, level, 1, page)
    decreases level
  {
    if level > 1 { BlockAlike(m, FrameOf(EntryAt(m, table, Digit(page, level))), level - 1, v, page); }
  }

  lemma {:induction false} BlockFrom(w: World, n: nat, t: nat, v: nat, page: nat, e: Word, flags: Word)
    requires Sane(w) && n <= 2
    requires Digit(v, 3) == Digit(page, 3) && Digit(v, 2) == Digit(page, 2) && Digit(v, 1) == Digit(page, 1)
    ensures MapFrom(w, n, t, 1, v, e, flags) == MapFrom(w, n, t, 1, page, e, flags)
    decreases 2 - n
  {
    if n < 2 {
      MapFromStep(w, n, t, 1, v, e, flags);
      MapFromStep(w, n, t, 1, page, e, flags);
      var (w', c) := EnsureTable(w, t, Digit(page, 3 - n), flags);
      if c.At? { BlockFrom(w', n + 1, c.frame, v, page, e, flags); }
    }
  }

  /** A walk that lacks a table faults. */
  lemma {:induction false} MissingFault(m: Memory, table: nat, level: nat, page: nat)
    requires level <= 3 && NoLarge(m, table, level, 1, page) && Missing(m, table, level, 1, page) != 0
    ensures Walk(m, table, level, page) == Fault
    decreases level
  {
    var e := EntryAt(m, table, Digit(page, level));
    if Present(e) {
      MissingFault(m, FrameOf(e), level - 1, page);
      WalkThrough(m, table, level, page, FrameOf(e));
    }
  }

  /** If a page of the block is mapped by a 4 KiB entry, all upper tables are there. */
  lemma {:induction false} SmallPageTables(m: Memory, root: nat, page: nat)
    requires page < VIRTUAL_PAGES && !BlockReady(m, root, page)
    ensures NoLarge(m, root, 3, 1, page) && Missing(m, root, 3, 1, page) == 0
  {
    var v: nat :| v < VIRTUAL_PAGES && v != page && SameLeaf(v, page, 1) && !FaultOrLarge(Translate(m, root, v));
    SameLeafDigits(v, page, 1);
    BlockAlike(m, root, 3, v, page);
    if !NoLarge(m, root, 3, 1, v) {
      LargeAbove(m, root, 3, 1, v);
    } else if Missing(m, root, 3, 1, v) != 0 {
      MissingFault(m, root, 3, v);
    }
  }

  /** With all upper tables, the pages of the block get their translation from the 2 MiB entry,
      or none if the flags lack PRESENT. */
  lemma {:induction false} BlockReplaced(w: World, root: nat, virt: Word, phys: Word, flags: Word, v: nat)
    requires Inv(w, root) && Large(flags) && v < VIRTUAL_PAGES && SameLeaf(v, PageOf(virt), 1)
    requires NoLarge(w.mem, root, 3, 1, PageOf(virt)) && Missing(w.mem, root, 3, 1, PageOf(virt)) == 0
    ensures FaultOrLarge(Translate(MapHuge(w, root, virt, phys, flags).0.mem, root, v))
  {
    var page, e := PageOf(virt), MakeHugeEntry(phys, flags);
    NoLargePassable(w.mem, root, root, 3, 1, page);
    CallStarts(w, root, virt, phys, flags);
    SameLeafDigits(v, page, 1);
    if Present(flags) {
      MapHugeRefines(w, root, virt, phys, flags);
    } else {
      BlockAlike(w.mem, root, 3, v, page);
      BlockFrom(w, 0, root, v, page, e, flags);
      NoLargePassable(w.mem, root, root, 3, 1, v);
      LeafEntryBits(phys, flags);
      assert PathOf(v, 0) == [];
      AbsentFrom(w, root, 0, root, 1, v, e, flags);
      CompleteDone(w, root, 0, root, page, e, flags);
    }
  }

  /** A 2 MiB call that lacks no table completes. */
  lemma {:induction false} CompleteDone(w: World, root: nat, n: nat, t: nat, page: nat, e: Word, flags: Word)
    requires Standing(w, root, n, t, 1, page) && n <= 2 && Missing(w.mem, t, 3 - n, 1, page) == 0
    ensures MapFrom(w, n, t, 1, page, e, flags).1
    decreases 2 - n
  {
    if n < 2 {
      MapFromStep(w, n, t, 1, page, e, flags);
      NoLargePassable(w.mem, root, t, 3 - n, 1, page);
      FollowStep(w, root, n, t, 1, page, flags);
      CompleteDone(w, root, n + 1, FrameOf(EntryAt(w.mem, t, Digit(page, 3 - n))), page, e, flags);
    }
  }

  // ---------------------------------------------------------------- what the flush leaves

  /** The single flush of a 2 MiB call leaves every coherent TLB coherent exactly when no other
      page of the block was mapped by a 4 KiB entry. */
  lemma {:induction false} HugeFlushIff(w: World, root: nat, virt: Word, phys: Word, flags: Word)
    requires Inv(w, root) && Large(flags) && Passable(w.mem, root, root, 3, 1, PageOf(virt))
    ensures var m := MapHuge(w, root, virt, phys, flags).0.mem;
            (forall tlb :: Exact(w.mem, root, tlb) ==> Exact(m, root, Invlpg(tlb, PageOf(virt)))) <==>
              BlockReady(w.mem, root, PageOf(virt))
  {
    var page := PageOf(virt);
    var m := MapHuge(w, root, virt, phys, flags).0.mem;
    if BlockReady(w.mem, root, page) {
      CallKeepsOthers(w, root, virt, phys, flags);
      assert OutsideKept(w.mem, m, root, page);
      forall tlb | Exact(w.mem, root, tlb)
        ensures Exact(m, root, Invlpg(tlb, page))
      {
        ReadyFlush(w.mem, m, root, page, tlb);
      }
    } else {
      SmallPageTables(w.mem, root, page);
      forall v: nat | v < VIRTUAL_PAGES && SameLeaf(v, page, 1)
        ensures FaultOrLarge(Translate(m, root, v))
      {
        BlockReplaced(w, root, virt, phys, flags, v);
      }
      var tlb := StaleEntry(w.mem, m, root, page);
    }
  }

  lemma {:induction false} StaleEntry(m: Memory, m': Memory, root: nat, page: nat) returns (tlb: Tlb)
    requires !BlockReady(m, root, page)
    requires forall v: nat :: v < VIRTUAL_PAGES && SameLeaf(v, page, 1) ==> FaultOrLarge(Translate(m', root, v))
    ensures Exact(m, root, tlb) && !Exact(m', root, Invlpg(tlb, page))
  {
    var v: nat :| v < VIRTUAL_PAGES && v != page && SameLeaf(v, page, 1) && !FaultOrLarge(Translate(m, root, v));
    tlb := OneEntry(m, root, v, page);
    assert Invlpg(tlb, page)[v] != Translate(m', root, v);
  }

  /** If only pages of the block change, and it was ready, the flush is enough. */
  lemma {:induction false} ReadyFlush(m: Memory, m': Memory, root: nat, page: nat, tlb: Tlb)
    requires Exact(m, root, tlb) && BlockReady(m, root, page)
    requires OutsideKept(m, m', root, page)
    ensures Exact(m', root, Invlpg(tlb, page))
  {
    forall v: nat | v in Invlpg(tlb, page)
      ensures !SameLeaf(v, page, 1)
    {
      if SameLeaf(v, page, 1) { DroppedInBlock(tlb[v], v, page); }
    }
  }

  /** It leaves a TLB that does the right thing exactly when any such page already had its new
      frame, flags and rights. */
  lemma {:induction false} HugeFlushServesIff(w: World, root: nat, virt: Word, phys: Word, flags: Word)
    requires Inv(w, root) && Present(flags) && Large(flags)
    requires NoLarge(w.mem, root, 3, 1, PageOf(virt)) && Missing(w.mem, root, 3, 1, PageOf(virt)) == 0
    ensures var m := MapHuge(w, root, virt, phys, flags).0.mem;
            (forall tlb :: Exact(w.mem, root, tlb) ==> Serving(m, root, Invlpg(tlb, PageOf(virt)))) <==>
              BlockServes(w.mem, root, PageOf(virt), phys, flags)
  {
    var page := PageOf(virt);
    var m := MapHuge(w, root, virt, phys, flags).0.mem;
    MapHugeRefines(w, root, virt, phys, flags);
    if BlockServes(w.mem, root, page, phys, flags) {
      forall tlb, v: nat | Exact(w.mem, root, tlb) && v in Invlpg(tlb, page)
        ensures Serves(tlb[v], Translate(m, root, v))
      {
        if SameLeaf(v, page, 1) { DroppedInBlock(tlb[v], v, page); }
      }
    } else {
      var v: nat :| v < VIRTUAL_PAGES && v != page && SameLeaf(v, page, 1) && !FaultOrLarge(Translate(w.mem, root, v))
                    && !Serves(Translate(w.mem, root, v), HugeTranslation(w.mem, root, v, phys, flags));
      var tlb := OneEntry(w.mem, root, v, page);
      assert !Serves(Invlpg(tlb, page)[v], Translate(m, root, v));
    }
  }

  /** A 4 KiB call needs no such condition, whatever its flags and the large pages it meets. */
  lemma {:induction false} SmallFlush(w: World, root: nat, virt: Word, phys: Word, flags: Word, tlb: Tlb)
    requires Inv(w, root) && !Large(flags) && Passable(w.mem, root, root, 3, 0, PageOf(virt))
    requires Exact(w.mem, root, tlb)
    ensures Exact(MapSmall(w, root, virt, phys, flags).0.mem, root, Invlpg(tlb, PageOf(virt)))
  {
    CallKeepsOthers(w, root, virt, phys, flags);
    forall v: nat | v in Invlpg(tlb, PageOf(virt))
      ensures !SameLeaf(v, PageOf(virt), 0)
    {
    }
  }
}
