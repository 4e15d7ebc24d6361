/** `map_page` as the code performs it: page-table words read and written through direct-map
    pointers, and tables taken from the physical memory manager. */
module Mmu {
  import opened Words
  import opened RegionTable
  import opened Pmm
  import opened PageWalk
  import opened PageMapping
  import opened CallSteps
  import opened CallWords

  class PageMapper {
    const pmm: PhysicalMemoryManager
    var hhdm: Word

    constructor (pmm: PhysicalMemoryManager, hhdm: Word)
      ensures this.pmm == pmm && this.hhdm == hhdm
    {
      this.pmm := pmm;
      this.hhdm := hhdm;
    }

    ghost function TheWorld(): World
      reads this, pmm, pmm.regions, pmm.memory
      requires pmm.Shape()
    {
      World(pmm.memory[..], pmm.Table())
    }

    /** A usable allocator, and a direct map that does not wrap around. */
    ghost predicate Ready()
      reads this, pmm, pmm.regions, pmm.memory
    {
      pmm.Shape() && Sane(TheWorld()) && hhdm + WORD_BYTES * pmm.memory.Length <= TWO64
    }

    /** `ptr` is the direct-map pointer to frame t, which lies in memory. */
    ghost predicate PointsTo(ptr: Word, t: nat)
      reads this, pmm
    {
      ENTRIES * t + ENTRIES <= pmm.memory.Length && ptr == hhdm + PAGE_SIZE * t
    }

    /** `alloc_page`: a pointer to a zeroed page, or null. */
    method AllocPage() returns (ptr: Word)
      requires Ready()
      modifies pmm`regionCount, pmm.regions, pmm.memory
      ensures Ready() && TheWorld() == TakePage(old(TheWorld())).0
      ensures var addr := TakePage(old(TheWorld())).1;
              (ptr == 0 <==> addr == 0) && (addr != 0 ==> PointsTo(ptr, addr / PAGE_SIZE))
    {
      ghost var w := TheWorld();
      OnePage(w);
      var phys := pmm.AllocPages(1);
      if phys == 0 { return 0; }
      ptr := ToVirt(phys, hhdm);
      assert ptr == hhdm + phys;
    }

    method ReadEntry(ptr: Word, i: nat, ghost t: nat) returns (e: Word)
      requires Ready() && PointsTo(ptr, t) && i < ENTRIES
      ensures e == EntryAt(pmm.memory[..], t, i)
    {
      WordOf(ptr, t, i);
      e := pmm.memory[ToPhys(ptr + WORD_BYTES * i, hhdm) / WORD_BYTES];
    }

    method WriteEntry(ptr: Word, i: nat, e: Word, ghost t: nat)
      requires Ready() && PointsTo(ptr, t) && i < ENTRIES
      modifies pmm.memory
      ensures Ready() && TheWorld() == WriteLeaf(old(TheWorld()), t, i, e)
    {
      WordOf(ptr, t, i);
      pmm.memory[ToPhys(ptr + WORD_BYTES * i, hhdm) / WORD_BYTES] := e;
    }

    lemma {:induction false} WordOf(ptr: Word, t: nat, i: nat)
      requires Ready() && PointsTo(ptr, t) && i < ENTRIES
      ensures ptr + WORD_BYTES * i < TWO64
      ensures ToPhys(ptr + WORD_BYTES * i, hhdm) == WORD_BYTES * (ENTRIES * t + i)
    {
    }

    /** One level: follow a present entry, or allocate, link and return a new table. */
    method NextTable(ptr: Word, i: nat, flags: Word, ghost t: nat) returns (ok: bool, next: Word)
      requires Ready() && PointsTo(ptr, t) && i < ENTRIES
      requires var e := EntryAt(pmm.memory[..], t, i);
               Present(e) ==> ENTRIES * (e / PAGE_SIZE) + ENTRIES <= pmm.memory.Length
      modifies pmm`regionCount, pmm.regions, pmm.memory
      ensures Ready() && TheWorld() == EnsureTable(old(TheWorld()), t, i, flags).0
      ensures var c := EnsureTable(old(TheWorld()), t, i, flags).1;
              (ok <==> c.At?) && (ok ==> PointsTo(next, c.frame))
      ensures var x := old(pmm.memory[512 * t + i]);
              && (x % 2 == 1 ==> ok && next == hhdm + 0x1000 * (x / 0x1000) && pmm.memory[..] == old(pmm.memory[..]))
              && (x % 2 == 0 && ok ==> pmm.memory[512 * t + i] == next - hhdm + flags % 0x1000)
    {
      LevelWords(TheWorld(), t, i, flags);
      var entry := ReadEntry(ptr, i, t);
      if !Present(entry) {
        ok, next := NewTable(ptr, i, flags, t);
      } else {
        ok, next := true, ToVirt(entry - entry % PAGE_SIZE, hhdm);
      }
    }

    /** The slot is empty: allocate a table and link it, unless memory has run out. */
    method NewTable(ptr: Word, i: nat, flags: Word, ghost t: nat) returns (ok: bool, next: Word)
      requires Ready() && PointsTo(ptr, t) && i < ENTRIES && !Present(EntryAt(pmm.memory[..], t, i))
      modifies pmm`regionCount, pmm.regions, pmm.memory
      ensures Ready() && TheWorld() == EnsureTable(old(TheWorld()), t, i, flags).0
      ensures var c := EnsureTable(old(TheWorld()), t, i, flags).1;
              (ok <==> c.At?) && (ok ==> PointsTo(next, c.frame))
    {
      ghost var addr := TakePage(TheWorld()).1;
      PageAligned(TheWorld());
      next := AllocPage();
      if next == 0 { return false, 0; }
      var phys := ToPhys(next, hhdm);
      DirectMap(next, addr);
      WriteEntry(ptr, i, MakeEntry(phys, flags), t);
      ok := true;
    }

    lemma {:induction false} DirectMap(ptr: Word, addr: nat)
      requires addr % PAGE_SIZE == 0 && addr + PAGE_SIZE <= TWO64 && PointsTo(ptr, addr / PAGE_SIZE)
      ensures ToPhys(ptr, hhdm) == addr
    {
      assert ptr == hhdm + addr;
    }

    /** The pointer to the root table that CR3 holds. */
    method RootTable(cr3: Word) returns (ptr: Word)
      requires Ready() && ENTRIES * (cr3 / PAGE_SIZE) + ENTRIES <= pmm.memory.Length
      ensures PointsTo(ptr, cr3 / PAGE_SIZE)
    {
      var base := cr3 - cr3 % PAGE_SIZE;
      assert base == PAGE_SIZE * (cr3 / PAGE_SIZE);
      ptr := ToVirt(base, hhdm);
      assert base + hhdm < TWO64;
    }

    /** `map_page`: the branch for the HUGE flag, or the 4 KiB routine. Every frame that the
        call follows must lie in memory. */
    method MapPage(cr3: Word, virt: Word, phys: Word, flags: Word) returns (ghost done: bool)
      requires Ready() && Bounded(pmm.memory[..], cr3 / PAGE_SIZE, 3, LeafOf(flags), PageOf(virt))
      modifies pmm`regionCount, pmm.regions, pmm.memory
      ensures Ready()
      ensures (TheWorld(), done) == MapCall(old(TheWorld()), cr3 / PAGE_SIZE, virt, phys, flags)
    {
      ghost var root := cr3 / PAGE_SIZE;
      var pml4 := RootTable(cr3);
      if Large(flags) {
        done := MapHugePage(pml4, virt, phys, flags, root);
      } else {
        done := MapSmallPage(pml4, virt, phys, flags, root);
      }
    }

    /** NextTable along the walk of `virt`. */
    method StepDown(ptr: Word, virt: Word, flags: Word, level: nat, ghost t: nat, ghost leaf: nat)
      returns (ok: bool, next: Word, ghost c: nat)
      requires Ready() && PointsTo(ptr, t) && leaf < level <= 3 && Bounded(pmm.memory[..], t, level, leaf, PageOf(virt))
      modifies pmm`regionCount, pmm.regions, pmm.memory
      ensures Ready()
      ensures EnsureTable(old(TheWorld()), t, Index(virt, level), flags) == (TheWorld(), if ok then At(c) else Absent)
      ensures ok ==> PointsTo(next, c) && Bounded(pmm.memory[..], c, level - 1, leaf, PageOf(virt))
    {
      ghost var r := EnsureTable(TheWorld(), t, Index(virt, level), flags).1;
      IndexDigit(virt, level);
      BoundedStep(TheWorld(), t, level, leaf, PageOf(virt), flags);
      ok, next := NextTable(ptr, Index(virt, level), flags, t);
      c := if r.At? then r.frame else 0;
    }

    method MapHugePage(pml4: Word, virt: Word, phys: Word, flags: Word, ghost root: nat) returns (ghost done: bool)
      requires Ready() && PointsTo(pml4, root) && Bounded(pmm.memory[..], root, 3, 1, PageOf(virt))
      modifies pmm`regionCount, pmm.regions, pmm.memory
      ensures Ready() && (TheWorld(), done) == MapHuge(old(TheWorld()), root, virt, phys, flags)
    {
      var ok, pdpt, pd;
      ghost var t3, t2;
      ok, pdpt, t3 := StepDown(pml4, virt, flags, 3, root, 1);
      if !ok { return false; }
      ok, pd, t2 := StepDown(pdpt, virt, flags, 2, t3, 1);
      if !ok { return false; }
      WriteEntry(pd, Index(virt, 1), MakeHugeEntry(phys, flags), t2);
      return true;
    }

    method MapSmallPage(pml4: Word, virt: Word, phys: Word, flags: Word, ghost root: nat) returns (ghost done: bool)
      requires Ready() && PointsTo(pml4, root) && Bounded(pmm.memory[..], root, 3, 0, PageOf(virt))
      modifies pmm`regionCount, pmm.regions, pmm.memory
      ensures Ready() && (TheWorld(), done) == MapSmall(old(TheWorld()), root, virt, phys, flags)
    {
      MapSmallLevels(TheWorld(), root, virt, phys, flags);
      IndexDigit(virt, 3);
      var ok, pdpt;
      ghost var t3;
      ok, pdpt, t3 := StepDown(pml4, virt, flags, 3, root, 0);
      if !ok { return false; }
      done := MapBelowRoot(pdpt, virt, phys, flags, t3);
    }

    /** The 4 KiB routine once the second-level table is at hand. */
    method MapBelowRoot(pdpt: Word, virt: Word, phys: Word, flags: Word, ghost t3: nat) returns (ghost done: bool)
      requires Ready() && PointsTo(pdpt, t3) && Bounded(pmm.memory[..], t3, 2, 0, PageOf(virt))
      modifies pmm`regionCount, pmm.regions, pmm.memory
      ensures Ready() && (TheWorld(), done) == SmallFrom(old(TheWorld()), 1, t3, PageOf(virt), phys, flags)
    {
      IndexDigit(virt, 2);
      IndexDigit(virt, 1);
      IndexDigit(virt, 0);
      var ok, pd, pt;
      ghost var t2, t1;
      ok, pd, t2 := StepDown(pdpt, virt, flags, 2, t3, 0);
      if !ok { return false; }
      ok, pt, t1 := StepDown(pd, virt, flags, 1, t2, 0);
      if !ok { return false; }
      WriteEntry(pt, Index(virt, 0), MakeEntry(phys, flags), t1);
      return true;
    }
  }

  // ---------------------------------------------------------------- frames in memory

  /** Every call in a state that satisfies the invariant, on a path without large pages, follows
      only frames in memory. */
  lemma {:induction false} CallInBounds(w: World, root: nat, page: nat, flags: Word)
    requires Inv(w, root) && NoLarge(w.mem, root, 3, LeafOf(flags), page)
    ensures Bounded(w.mem, root, 3, LeafOf(flags), page)
  {
    assert PathOf(page, 0) == [];
    TreeBounded(w, root, 0, root, LeafOf(flags), page);
  }

  lemma {:induction false} PageAligned(w: World)
    requires Sane(w)
    ensures var addr := TakePage(w).1; addr % PAGE_SIZE == 0 && addr + PAGE_SIZE <= TWO64
  {
    var addr := TakePage(w).1;
    if addr != 0 { assert WholePages(w.table[FirstFit(w.table, PAGE_SIZE)]); }
  }

  lemma {:induction false} OnePageBytes()
    ensures PageBytes(1) == PAGE_SIZE
  {
  }

  lemma {:induction false} FrameInMemory(addr: nat, words: nat)
    requires addr % PAGE_SIZE == 0 && addr + PAGE_SIZE <= WORD_BYTES * words
    ensures addr == PAGE_SIZE * (addr / PAGE_SIZE) && ENTRIES * (addr / PAGE_SIZE) + ENTRIES <= words
  {
  }

  lemma {:induction false} OnePage(w: World)
    requires Sane(w)
    ensures TakePage(w) == (World(AllocMemory(w.mem, w.table, PageBytes(1)), Alloc(w.table, PageBytes(1))),
                            AllocAddress(w.table, PageBytes(1)))
    ensures var addr := TakePage(w).1;
            addr != 0 ==> addr == PAGE_SIZE * (addr / PAGE_SIZE) && ENTRIES * (addr / PAGE_SIZE) + ENTRIES <= |w.mem|
  {
    OnePageBytes();
    var addr := TakePage(w).1;
    if addr != 0 {
      assert WholePages(w.table[FirstFit(w.table, PAGE_SIZE)]);
      FrameInMemory(addr, |w.mem|);
    }
  }
}
