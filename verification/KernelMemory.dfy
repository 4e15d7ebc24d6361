/** Memory management as a whole: the allocator's callers, `map_page` one step at a time, and
    a TLB that fills and drops entries whenever it likes (section 4.10 of the Intel SDM,
    volume 3A). Every run keeps page tables, free memory and live blocks apart, and keeps the
    TLB coherent outside the window between the leaf write and the flush. */
module KernelMemory {
  import opened Words
  import opened RegionTable
  import opened RegionLaws
  import opened AllocatorRuns
  import opened MemoryMap
  import opened Pmm
  import opened PageWalk
  import opened PageMapping
  import opened CallSteps
  import opened MapConditions
  import opened TlbFlush

  /** Where `map_page` stands: at table t, n levels below the root, where level `leaf` (1 in the
      2 MiB branch) takes the leaf; or about to flush the page. */
  datatype Pc =
    | Idle
    | AtTable(n: nat, t: nat, leaf: nat, page: nat, phys: Word, flags: Word)
    | AtFlush(page: nat, leaf: nat)

  datatype System = System(world: World, live: set<Block>, tlb: Tlb, pc: Pc)

  datatype Event =
    | ClientAlloc(count: Word)
    | ClientFree(block: Block)
    | ClientWrite(owner: Block, k: nat, value: Word)
    | BeginMap(virt: Word, phys: Word, flags: Word)
    | Advance
    | Fill(page: nat)
    | Evict(page: nat)

  ghost predicate FrameApart(n: nat, b: Block) {
    forall a :: PAGE_SIZE * n <= a < PAGE_SIZE * n + PAGE_SIZE ==> !InBlock(b, a)
  }

  /** No page table meets the block. */
  ghost predicate TablesApart(m: Memory, root: nat, b: Block) {
    forall p :: IsPath(p) && Tab(m, root, p).At? ==> FrameApart(Tab(m, root, p).frame, b)
  }

  /** Callers free and write only blocks they hold. They do not free where the merged entry
      would swallow a page table that lies in a hole of the table, and map only where the frames
      followed lie in memory and none of them is taken for a table but is another. */
  ghost predicate Enabled(s: System, root: nat, ev: Event) {
    match ev
    case ClientAlloc(count) => s.pc.Idle? && PageBytes(count) != 0
    case ClientFree(b) =>
      && s.pc.Idle? && b in s.live
      && (var t := s.world.table; var i := Find(t, b.0, b.1); i < |t| ==> TablesApart(s.world.mem, root, Merged(t, i)))
    case ClientWrite(b, k, _) => s.pc.Idle? && b in s.live && InBlock(b, WORD_BYTES * k)
    case BeginMap(virt, _, flags) =>
      && s.pc.Idle? && Bounded(s.world.mem, root, 3, LeafOf(flags), PageOf(virt))
      && Passable(s.world.mem, root, root, 3, LeafOf(flags), PageOf(virt))
    case Advance => !s.pc.Idle?
    case Fill(v) => v < VIRTUAL_PAGES && Translate(s.world.mem, root, v).Mapped?
    case Evict(_) => true
  }

  function SetWord(m: Memory, k: nat, value: Word): Memory {
    if k < |m| then m[k := value] else m
  }

  function Apply(s: System, root: nat, ev: Event): System
    requires Sane(s.world)
  {
    var w := s.world;
    match ev
    case ClientAlloc(count) =>
      var sz := PageBytes(count);
      var addr := AllocAddress(w.table, sz);
      s.(world := World(AllocMemory(w.mem, w.table, sz), Alloc(w.table, sz)),
         live := if addr == 0 then s.live else s.live + {(addr, sz)})
    case ClientFree(b) =>
      s.(world := World(w.mem, Free(w.table, b.0, b.1)), live := s.live - {b})
    case ClientWrite(_, k, value) =>
      s.(world := World(SetWord(w.mem, k, value), w.table))
    case BeginMap(virt, phys, flags) =>
      s.(pc := AtTable(0, root, LeafOf(flags), PageOf(virt), phys, flags))
    case Fill(v) => s.(tlb := s.tlb[v := Translate(w.mem, root, v)])
    case Evict(v) => s.(tlb := s.tlb - {v})
    case Advance =>
      match s.pc
      case Idle => s
      case AtTable(n, t, leaf, page, phys, flags) =>
        if n + leaf < 3 then
          var (w', c) := EnsureTable(w, t, Digit(page, 3 - n), flags);
          s.(world := w', pc := if c.Absent? then Idle else AtTable(n + 1, c.frame, leaf, page, phys, flags))
        else
          s.(world := WriteLeaf(w, t, Digit(page, leaf), LeafEntry(phys, flags)), pc := AtFlush(page, leaf))
      case AtFlush(page, _) => s.(tlb := Invlpg(s.tlb, page), pc := Idle)
  }

  // ---------------------------------------------------------------- invariant

  /** Live blocks are recorded as used, and none overlaps a page table. */
  ghost predicate Separate(s: System, root: nat) {
    && s.live <= UsedBlocks(s.world.table)
    && forall p, b :: IsPath(p) && Tab(s.world.mem, root, p).At? && b in s.live ==>
         FrameApart(Tab(s.world.mem, root, p).frame, b)
  }

  /** Page v lies under a leaf that has just been written and not yet flushed. */
  predicate InWindow(pc: Pc, v: nat) {
    pc.AtFlush? && pc.leaf <= 1 && SameLeaf(v, pc.page, pc.leaf)
  }

  /** A cached translation is the current one, or it lies in that window and the coming flush
      drops it. */
  ghost predicate EntryCoherent(s: System, root: nat, v: nat)
    requires v in s.tlb
  {
    && v < VIRTUAL_PAGES && s.tlb[v].Mapped?
    && (s.tlb[v] == Translate(s.world.mem, root, v) || (InWindow(s.pc, v) && Dropped(s.tlb[v], v, s.pc.page)))
  }

  ghost predicate Coherent(s: System, root: nat) {
    forall v: nat :: v in s.tlb ==> EntryCoherent(s, root, v)
  }

  /** The block of a 2 MiB call that stands in a table of the tree holds no other page mapped by
      a 4 KiB entry. */
  ghost predicate LeafReady(s: System, root: nat) {
    s.pc.AtTable? && s.pc.leaf == 1 && OnTree(s.world.mem, root, s.pc.n, s.pc.t, s.pc.page) ==>
      BlockReady(s.world.mem, root, s.pc.page)
  }

  /** The call starts on such a block, if it is a 2 MiB call. */
  ghost predicate StartsReady(s: System, root: nat, ev: Event) {
    ev.BeginMap? && Large(ev.flags) ==> BlockReady(s.world.mem, root, PageOf(ev.virt))
  }

  ghost predicate PcInv(s: System, root: nat) {
    match s.pc
    case AtTable(n, t, leaf, page, _, flags) =>
      && leaf == LeafOf(flags) && n + leaf <= 3 && page < VIRTUAL_PAGES
      && Going(s.world, root, n, t, leaf, page)
    case _ => true
  }

  /** What every run keeps, whatever the flags of its calls. */
  ghost predicate SysInv(s: System, root: nat) {
    Inv(s.world, root) && Separate(s, root) && PcInv(s, root)
  }

  ghost predicate FrameOutside(t: Table, n: nat) {
    forall a :: PAGE_SIZE * n <= a < PAGE_SIZE * n + PAGE_SIZE ==> !Covered(t, a)
  }

  /** Boot establishes the invariant: the allocator describes the memory map, and the boot
      loader's page tables lie outside the memory it was given. */
  lemma {:induction false} BootSafe(m: Memory, t: Table, c: Table, root: nat)
    requires Describes(t, c) && NoPageZero(t) && InMemory(t, |m|) && WORD_BYTES * |m| <= MAX_ADDRESS && Tree(m, root)
    requires forall p :: IsPath(p) && Tab(m, root, p).At? ==> FrameOutside(c, Tab(m, root, p).frame)
    ensures var s := System(World(m, t), {}, map[], Idle); SysInv(s, root) && Coherent(s, root)
  {
    forall p | IsPath(p) && Tab(m, root, p).At?
      ensures FrameInUse(t, Tab(m, root, p).frame)
    {
      forall a | PAGE_SIZE * Tab(m, root, p).frame <= a < PAGE_SIZE * Tab(m, root, p).frame + PAGE_SIZE
        ensures !FreeByte(t, a)
      {
        assert !Covered(c, a) && !Covered(t, a);
      }
    }
  }

  // ---------------------------------------------------------------- callers of the allocator

  /** The block that a request takes and clears holds no word of a page table. */
  lemma {:induction false} ClearedApart(w: World, root: nat, sz: nat, p: seq<nat>, i: nat)
    requires Inv(w, root) && Taken(w.table, sz) && sz % PAGE_SIZE == 0
    requires IsPath(p) && Tab(w.mem, root, p).At? && i < ENTRIES
    ensures var f := Tab(w.mem, root, p).frame;
            EntryAt(AllocMemory(w.mem, w.table, sz), f, i) == EntryAt(w.mem, f, i)
  {
    var k := ENTRIES * Tab(w.mem, root, p).frame + i;
    AllocExact(w.table, sz);
    assert WholePages(w.table[FirstFit(w.table, sz)]);
    assert !FreeByte(w.table, WORD_BYTES * k);
    var b := TakenBase(w.table, sz);
    assert !InBlock((b, sz), WORD_BYTES * k);
    WordsOfBlock(b, sz, k);
  }

  lemma {:induction false} AllocKeepsTables(w: World, root: nat, sz: nat)
    requires Inv(w, root) && 0 < sz && sz % PAGE_SIZE == 0
    ensures var m := AllocMemory(w.mem, w.table, sz);
            SameTables(w.mem, m, root) && Inv(World(m, Alloc(w.table, sz)), root)
  {
    var m := AllocMemory(w.mem, w.table, sz);
    AllocReady(w.table, sz, |w.mem|);
    AllocNoPageZero(w.table, sz);
    if Taken(w.table, sz) { AllocExact(w.table, sz); }
    forall p, i: nat | IsPath(p) && Tab(w.mem, root, p).At? && i < ENTRIES
      ensures EntryAt(m, Tab(w.mem, root, p).frame, i) == EntryAt(w.mem, Tab(w.mem, root, p).frame, i)
    {
      if Taken(w.table, sz) { ClearedApart(w, root, sz, p, i); }
    }
    SameTablesTree(w.mem, m, root);
  }

  /** If the tables keep their entries, every page translates as before. */
  lemma {:induction false} SameTranslate(m: Memory, m': Memory, root: nat)
    requires SameTables(m, m', root)
    ensures forall v :: Translate(m', root, v) == Translate(m, root, v)
  {
    forall v
      ensures Translate(m', root, v) == Translate(m, root, v)
    {
      SameWalk(m, m', root, root, 3, 0, v, 0);
    }
  }

  lemma {:induction false} FrameFreeApart(t: Table, n: nat, b: Block)
    requires FrameInUse(t, n) && forall a :: InBlock(b, a) ==> FreeByte(t, a)
    ensures FrameApart(n, b)
  {
  }

  /** The granted block overlaps no page table. */
  lemma {:induction false} GrantApart(w: World, root: nat, sz: nat)
    requires Inv(w, root) && Taken(w.table, sz)
    ensures forall p :: IsPath(p) && Tab(w.mem, root, p).At? ==>
              FrameApart(Tab(w.mem, root, p).frame, (TakenBase(w.table, sz), sz))
  {
    AllocExact(w.table, sz);
    forall p | IsPath(p) && Tab(w.mem, root, p).At?
      ensures FrameApart(Tab(w.mem, root, p).frame, (TakenBase(w.table, sz), sz))
    {
      FrameFreeApart(w.table, Tab(w.mem, root, p).frame, (TakenBase(w.table, sz), sz));
    }
  }

  lemma {:induction false} ClientAllocStep(s: System, root: nat, count: Word)
    requires SysInv(s, root) && Enabled(s, root, ClientAlloc(count))
    ensures SysInv(Apply(s, root, ClientAlloc(count)), root)
    ensures var m := Apply(s, root, ClientAlloc(count)).world.mem;
            forall v :: Translate(m, root, v) == Translate(s.world.mem, root, v)
  {
    var w, sz := s.world, PageBytes(count);
    var s' := Apply(s, root, ClientAlloc(count));
    AllocKeepsTables(w, root, sz);
    SameTablesTree(w.mem, s'.world.mem, root);
    SameTranslate(w.mem, s'.world.mem, root);
    if Taken(w.table, sz) {
      AllocUsed(w.table, sz);
      GrantApart(w, root, sz);
    }
  }

  /** The bytes that become free are those of the merged entry: frames in use stay in use
      exactly if they keep clear of it. */
  lemma {:induction false} ReleaseApart(t: Table, i: nat, n: nat)
    requires i < |t| && FrameInUse(t, n)
    ensures FrameInUse(Release(t, i), n) <==> FrameApart(n, Merged(t, i))
  {
    forall a | PAGE_SIZE * n <= a < PAGE_SIZE * n + PAGE_SIZE
      ensures FreeByte(Release(t, i), a) <==> InBlock(Merged(t, i), a)
    {
      ReleaseFrees(t, i, a);
    }
  }

  lemma {:induction false} ReleaseSane(s: System, b: Block)
    requires Sane(s.world)
    ensures Sane(World(s.world.mem, Free(s.world.table, b.0, b.1)))
  {
    FreeValid(s.world.table, b.0, b.1);
    FreeNoPageZero(s.world.table, b.0, b.1);
    FreeInMemory(s.world.table, b.0, b.1, |s.world.mem|);
  }

  /** A release of a held block keeps the invariant exactly if no page table meets the merged
      entry, which may contain holes between the regions. */
  lemma {:induction false} ClientFreeIff(s: System, root: nat, b: Block)
    requires SysInv(s, root) && s.pc.Idle? && b in s.live
    ensures var t := s.world.table;
            && Find(t, b.0, b.1) < |t|
            && (var m := Merged(t, Find(t, b.0, b.1));
                SysInv(Apply(s, root, ClientFree(b)), root) <==> TablesApart(s.world.mem, root, m))
  {
    var t := s.world.table;
    UsedIndex(t, b.0, b.1);
    var i := Find(t, b.0, b.1);
    ReleaseSane(s, b);
    FreeUsed(t, b.0, b.1);
    forall p | IsPath(p) && Tab(s.world.mem, root, p).At?
      ensures var n := Tab(s.world.mem, root, p).frame; FrameInUse(Release(t, i), n) <==> FrameApart(n, Merged(t, i))
    {
      ReleaseApart(t, i, Tab(s.world.mem, root, p).frame);
    }
  }

  /** Where the free neighbours touch the block, this is so. */
  lemma {:induction false} TouchingFree(s: System, root: nat, b: Block)
    requires SysInv(s, root) && b in s.live
    requires var i := Find(s.world.table, b.0, b.1); i < |s.world.table| && Touching(s.world.table, i)
    ensures TablesApart(s.world.mem, root, Merged(s.world.table, Find(s.world.table, b.0, b.1)))
  {
    var t := s.world.table;
    var i := Find(t, b.0, b.1);
    forall p, a | IsPath(p) && Tab(s.world.mem, root, p).At? && InBlock(Merged(t, i), a)
      ensures var n := Tab(s.world.mem, root, p).frame; !(PAGE_SIZE * n <= a < PAGE_SIZE * n + PAGE_SIZE)
    {
      TouchingMerged(t, i, a);
      assert FrameApart(Tab(s.world.mem, root, p).frame, b);
      assert t[i].Covers(a) ==> InBlock(b, a);
    }
  }

  lemma {:induction false} ClientWriteStep(s: System, root: nat, b: Block, k: nat, value: Word)
    requires SysInv(s, root) && Enabled(s, root, ClientWrite(b, k, value))
    ensures SysInv(Apply(s, root, ClientWrite(b, k, value)), root)
    ensures var m := Apply(s, root, ClientWrite(b, k, value)).world.mem;
            forall v :: Translate(m, root, v) == Translate(s.world.mem, root, v)
  {
    var s' := Apply(s, root, ClientWrite(b, k, value));
    forall p, i: nat | IsPath(p) && Tab(s.world.mem, root, p).At? && i < ENTRIES
      ensures EntryAt(s'.world.mem, Tab(s.world.mem, root, p).frame, i)
           == EntryAt(s.world.mem, Tab(s.world.mem, root, p).frame, i)
    {
      var f := Tab(s.world.mem, root, p).frame;
      assert FrameApart(f, b);
      assert PAGE_SIZE * f <= WORD_BYTES * (ENTRIES * f + i) < PAGE_SIZE * f + PAGE_SIZE;
    }
    SameTablesTree(s.world.mem, s'.world.mem, root);
    SameTranslate(s.world.mem, s'.world.mem, root);
  }

  // ---------------------------------------------------------------- steps of map_page

  lemma {:induction false} GrownSeparate(s: System, w': World, root: nat)
    requires Inv(s.world, root) && Separate(s, root) && TablesGrown(s.world, w', root)
    ensures Separate(s.(world := w'), root)
  {
    var t := s.world.table;
    if Taken(t, PAGE_SIZE) { AllocUsed(t, PAGE_SIZE); }
    forall q, b | IsPath(q) && Tab(w'.mem, root, q).At? && b in s.live
      ensures FrameApart(Tab(w'.mem, root, q).frame, b)
    {
      UsedDisjoint(t, b);
    }
  }

  /** The step writes the leaf above page v. */
  ghost predicate LeafWrite(s: System, root: nat, ev: Event, v: nat) {
    && ev.Advance? && s.pc.AtTable? && s.pc.leaf <= 1 && s.pc.n + s.pc.leaf == 3
    && OnTree(s.world.mem, root, s.pc.n, s.pc.t, s.pc.page) && SameLeaf(v, s.pc.page, s.pc.leaf)
  }

  /** The step of a 2 MiB call makes a 1 GiB page above page v of a missing second-level table. */
  ghost predicate HugeLink(s: System, root: nat, ev: Event, v: nat) {
    && ev.Advance? && s.pc.AtTable? && s.pc.n + s.pc.leaf < 3
    && GibLink(s.world, root, s.pc.n, s.pc.t, s.pc.page, s.pc.flags) && SameLeaf(v, s.pc.page, 2)
  }

  /** The translation of page v is not touched: it changes at most where a leaf above v is
      written, or where v was unmapped and a 2 MiB call makes a 1 GiB page above it. */
  ghost predicate Untouched(s: System, s': System, root: nat, ev: Event, v: nat) {
    LeafWrite(s, root, ev, v) || (HugeLink(s, root, ev, v) && Translate(s.world.mem, root, v) == Fault)
    || Translate(s'.world.mem, root, v) == Translate(s.world.mem, root, v)
  }

  /** The state after one level down. */
  lemma {:induction false} LevelApply(s: System, root: nat)
    requires Sane(s.world) && s.pc.AtTable? && s.pc.n + s.pc.leaf < 3
    ensures var (w', c) := EnsureTable(s.world, s.pc.t, Digit(s.pc.page, 3 - s.pc.n), s.pc.flags);
            var s' := Apply(s, root, Advance);
            && s'.world == w' && s'.live == s.live && s'.tlb == s.tlb
            && s'.pc == if c.Absent? then Idle else s.pc.(n := s.pc.n + 1, t := c.frame)
  {
  }

  lemma {:induction false} LevelPc(s: System, root: nat)
    requires SysInv(s, root) && s.pc.AtTable? && s.pc.n + s.pc.leaf < 3
    ensures Inv(Apply(s, root, Advance).world, root) && PcInv(Apply(s, root, Advance), root)
    ensures TablesGrown(s.world, Apply(s, root, Advance).world, root)
  {
    var AtTable(n, t, leaf, page, phys, flags) := s.pc;
    LevelApply(s, root);
    AnyStep(s.world, root, n, t, leaf, page, flags);
  }

  lemma {:induction false} LevelInv(s: System, root: nat)
    requires SysInv(s, root) && s.pc.AtTable? && s.pc.n + s.pc.leaf < 3
    ensures SysInv(Apply(s, root, Advance), root)
  {
    LevelPc(s, root);
    LevelApply(s, root);
    GrownSeparate(s, Apply(s, root, Advance).world, root);
  }

  lemma {:induction false} LevelUntouched(s: System, root: nat, v: nat)
    requires v < VIRTUAL_PAGES && SysInv(s, root) && s.pc.AtTable? && s.pc.n + s.pc.leaf < 3
    ensures Untouched(s, Apply(s, root, Advance), root, Advance, v)
  {
    var AtTable(n, t, leaf, page, phys, flags) := s.pc;
    LevelApply(s, root);
    AnyStep(s.world, root, n, t, leaf, page, flags);
  }

  /** The leaf write. */
  lemma {:induction false} LeafAdvance(s: System, root: nat)
    requires SysInv(s, root) && s.pc.AtTable? && s.pc.n + s.pc.leaf == 3
    ensures var s' := Apply(s, root, Advance);
            SysInv(s', root) && forall v: nat :: v < VIRTUAL_PAGES ==> Untouched(s, s', root, Advance, v)
  {
    var w := s.world;
    var AtTable(n, t, leaf, page, phys, flags) := s.pc;
    LeafEntryBits(phys, flags);
    AnyLeaf(w, root, t, leaf, page, LeafEntry(phys, flags));
    var w' := WriteLeaf(w, t, Digit(page, leaf), LeafEntry(phys, flags));
    GrownSeparate(s, w', root);
    var s' := Apply(s, root, Advance);
    assert s'.world == w' && Separate(s', root);
  }

  lemma {:induction false} AdvanceStep(s: System, root: nat)
    requires SysInv(s, root) && !s.pc.Idle?
    ensures var s' := Apply(s, root, Advance);
            SysInv(s', root) && forall v: nat :: v < VIRTUAL_PAGES ==> Untouched(s, s', root, Advance, v)
  {
    if s.pc.AtTable? {
      if s.pc.n + s.pc.leaf < 3 {
        LevelInv(s, root);
        forall v: nat | v < VIRTUAL_PAGES
          ensures Untouched(s, Apply(s, root, Advance), root, Advance, v)
        {
          LevelUntouched(s, root, v);
        }
      } else {
        LeafAdvance(s, root);
      }
    }
  }

  /** Every enabled event keeps the invariant and touches no translation but as said. */
  lemma {:induction false} StepSafe(s: System, root: nat, ev: Event)
    requires SysInv(s, root) && Enabled(s, root, ev)
    ensures var s' := Apply(s, root, ev);
            SysInv(s', root) && forall v: nat :: v < VIRTUAL_PAGES ==> Untouched(s, s', root, ev, v)
  {
    match ev {
      case ClientAlloc(count) => ClientAllocStep(s, root, count);
      case ClientFree(b) => ClientFreeIff(s, root, b);
      case ClientWrite(b, k, value) => ClientWriteStep(s, root, b, k, value);
      case BeginMap(virt, _, _) => assert PathOf(PageOf(virt), 0) == [];
      case Advance => AdvanceStep(s, root);
      case Fill(_) =>
      case Evict(_) =>
    }
  }

  /** Outside a leaf write and a flush an event keeps cached translations current. */
  lemma {:induction false} QuietCoherent(s: System, root: nat, ev: Event)
    requires SysInv(s, root) && Enabled(s, root, ev) && Coherent(s, root)
    requires ev.Advance? ==> s.pc.AtTable? && s.pc.n + s.pc.leaf < 3
    ensures Coherent(Apply(s, root, ev), root)
  {
    var s' := Apply(s, root, ev);
    StepSafe(s, root, ev);
    forall v: nat | v in s'.tlb
      ensures EntryCoherent(s', root, v)
    {
      if !ev.Fill? {
        assert v in s.tlb && s'.tlb[v] == s.tlb[v];
        assert EntryCoherent(s, root, v) && Untouched(s, s', root, ev, v);
      }
    }
  }

  /** After the leaf write every stale entry is one that the flush drops. */
  lemma {:induction false} LeafCoherent(s: System, root: nat)
    requires SysInv(s, root) && Coherent(s, root) && LeafReady(s, root) && s.pc.AtTable? && s.pc.n + s.pc.leaf == 3
    ensures Coherent(Apply(s, root, Advance), root)
  {
    var w := s.world;
    var AtTable(n, t, leaf, page, phys, flags) := s.pc;
    var s' := Apply(s, root, Advance);
    LeafEntryBits(phys, flags);
    AnyLeaf(w, root, t, leaf, page, LeafEntry(phys, flags));
    forall v: nat | v in s'.tlb
      ensures EntryCoherent(s', root, v)
    {
      assert EntryCoherent(s, root, v);
      if SameLeaf(v, page, leaf) && OnTree(w.mem, root, n, t, page) && leaf == 1 {
        DroppedInBlock(s.tlb[v], v, page);
      }
    }
  }

  lemma {:induction false} FlushCoherent(s: System, root: nat)
    requires Coherent(s, root) && Sane(s.world) && s.pc.AtFlush?
    ensures Coherent(Apply(s, root, Advance), root)
  {
    var s' := Apply(s, root, Advance);
    forall v: nat | v in s'.tlb
      ensures EntryCoherent(s', root, v)
    {
      assert EntryCoherent(s, root, v);
    }
  }

  lemma {:induction false} ReadyAdvance(s: System, root: nat)
    requires SysInv(s, root) && LeafReady(s, root) && s.pc.AtTable? && s.pc.leaf == 1 && s.pc.n < 2
    ensures LeafReady(Apply(s, root, Advance), root)
  {
    var AtTable(n, t, leaf, page, phys, flags) := s.pc;
    LevelApply(s, root);
    HugeStands(s.world, root, n, t, 1, page, flags);
  }

  lemma {:induction false} ReadyKept(s: System, root: nat, ev: Event)
    requires SysInv(s, root) && Enabled(s, root, ev) && LeafReady(s, root) && StartsReady(s, root, ev)
    ensures LeafReady(Apply(s, root, ev), root)
  {
    if ev.Advance? {
      if s.pc.AtTable? && s.pc.leaf == 1 && s.pc.n < 2 { ReadyAdvance(s, root); }
    } else if ev.BeginMap? {
      assert Apply(s, root, ev).world == s.world;
    } else if s.pc.AtTable? {
      assert Apply(s, root, ev).world == s.world;
    }
  }

  /** An enabled event keeps the TLB coherent, if it is not the start of a 2 MiB call on a block
      that holds other pages mapped by 4 KiB entries. */
  lemma {:induction false} StepCoherent(s: System, root: nat, ev: Event)
    requires SysInv(s, root) && Enabled(s, root, ev)
    requires Coherent(s, root) && LeafReady(s, root) && StartsReady(s, root, ev)
    ensures Coherent(Apply(s, root, ev), root) && LeafReady(Apply(s, root, ev), root)
  {
    ReadyKept(s, root, ev);
    if ev.Advance? && s.pc.AtFlush? {
      FlushCoherent(s, root);
    } else if ev.Advance? && s.pc.AtTable? && s.pc.n + s.pc.leaf == 3 {
      LeafCoherent(s, root);
    } else {
      QuietCoherent(s, root, ev);
    }
  }

  // ---------------------------------------------------------------- whole runs

  /** Event k is enabled in state k and leads to the next state. */
  ghost predicate Follows(ss: seq<System>, evs: seq<Event>, root: nat, k: nat)
    requires |ss| == |evs| + 1 && k < |evs|
  {
    Sane(ss[k].world) && Enabled(ss[k], root, evs[k]) && ss[k + 1] == Apply(ss[k], root, evs[k])
  }

  /** A run: each event is enabled in the state its predecessors lead to. */
  ghost predicate IsRun(ss: seq<System>, evs: seq<Event>, root: nat) {
    |ss| == |evs| + 1 && forall k: nat :: k < |evs| ==> Follows(ss, evs, root, k)
  }

  /** Safety of every run: the page tables stay a tree of distinct frames, disjoint from free
      memory and from every live block. */
  lemma {:induction false} RunSafe(ss: seq<System>, evs: seq<Event>, root: nat, k: nat)
    requires IsRun(ss, evs, root) && SysInv(ss[0], root) && k <= |evs|
    ensures SysInv(ss[k], root)
  {
    if 0 < k {
      RunSafe(ss, evs, root, k - 1);
      assert Follows(ss, evs, root, k - 1);
      StepSafe(ss[k - 1], root, evs[k - 1]);
    }
  }

  /** Between two states of a run no leaf above page v is written. */
  ghost predicate NoLeafWrite(ss: seq<System>, evs: seq<Event>, root: nat, from: nat, k: nat, v: nat)
    requires k <= |ss| && k <= |evs|
  {
    forall j :: from <= j < k ==> !LeafWrite(ss[j], root, evs[j], v)
  }

  /** Nor does a 2 MiB call make a 1 GiB page above it. */
  ghost predicate NoHugeLink(ss: seq<System>, evs: seq<Event>, root: nat, from: nat, k: nat, v: nat)
    requires k <= |ss| && k <= |evs|
  {
    forall j :: from <= j < k ==> !HugeLink(ss[j], root, evs[j], v)
  }

  lemma {:induction false} UntouchedSame(s: System, s': System, root: nat, ev: Event, v: nat)
    requires Untouched(s, s', root, ev, v) && !LeafWrite(s, root, ev, v)
    requires Translate(s.world.mem, root, v).Mapped? || !HugeLink(s, root, ev, v)
    ensures Translate(s'.world.mem, root, v) == Translate(s.world.mem, root, v)
  {
  }

  lemma {:induction false} RunStep(ss: seq<System>, evs: seq<Event>, root: nat, k: nat, v: nat)
    requires IsRun(ss, evs, root) && SysInv(ss[0], root) && k < |evs| && v < VIRTUAL_PAGES
    ensures Untouched(ss[k], ss[k + 1], root, evs[k], v)
  {
    RunSafe(ss, evs, root, k);
    assert Follows(ss, evs, root, k);
    StepSafe(ss[k], root, evs[k]);
  }

  /** No allocation, release, write into a held block, failed or foreign `map_page` step ever
      changes a translation: between two states of a run, page v translates alike unless a
      leaf above v is written in between, or v is unmapped while a 2 MiB call makes a 1 GiB
      page above it. */
  lemma {:induction false} RunTranslations(ss: seq<System>, evs: seq<Event>, root: nat, from: nat, k: nat, v: nat)
    requires IsRun(ss, evs, root) && SysInv(ss[0], root) && from <= k <= |evs| && v < VIRTUAL_PAGES
    requires NoLeafWrite(ss, evs, root, from, k, v)
    requires Translate(ss[from].world.mem, root, v).Mapped? || NoHugeLink(ss, evs, root, from, k, v)
    ensures Translate(ss[k].world.mem, root, v) == Translate(ss[from].world.mem, root, v)
  {
    if from < k {
      assert NoLeafWrite(ss, evs, root, from, k - 1, v);
      assert NoHugeLink(ss, evs, root, from, k, v) ==> NoHugeLink(ss, evs, root, from, k - 1, v);
      RunTranslations(ss, evs, root, from, k - 1, v);
      RunStep(ss, evs, root, k - 1, v);
      assert !LeafWrite(ss[k - 1], root, evs[k - 1], v);
      assert NoHugeLink(ss, evs, root, from, k, v) ==> !HugeLink(ss[k - 1], root, evs[k - 1], v);
      UntouchedSame(ss[k - 1], ss[k], root, evs[k - 1], v);
    }
  }

  /** What the leaf write of a call makes of a page under it, in any reachable state. */
  lemma {:induction false} RunLeafWrite(ss: seq<System>, evs: seq<Event>, root: nat, k: nat, v: nat)
    requires IsRun(ss, evs, root) && SysInv(ss[0], root) && k < |evs| && v < VIRTUAL_PAGES
    requires LeafWrite(ss[k], root, evs[k], v) && Present(ss[k].pc.flags)
    ensures var m, pc := ss[k].world.mem, ss[k].pc;
            Translate(ss[k + 1].world.mem, root, v)
              == if pc.leaf == 0 then SmallTranslation(m, root, v, pc.phys, pc.flags)
                 else HugeTranslation(m, root, v, pc.phys, pc.flags)
  {
    RunSafe(ss, evs, root, k);
    assert Follows(ss, evs, root, k);
    var AtTable(n, t, leaf, page, phys, flags) := ss[k].pc;
    if leaf == 0 {
      assert v == page;
      SmallLeaf(ss[k].world, root, t, v, phys, flags);
    } else {
      HugeLeaf(ss[k].world, root, t, page, phys, flags);
    }
  }

  /** The other step that changes translations maps the whole GiB. */
  lemma {:induction false} RunHugeLink(ss: seq<System>, evs: seq<Event>, root: nat, k: nat, v: nat)
    requires IsRun(ss, evs, root) && SysInv(ss[0], root) && k < |evs| && v < VIRTUAL_PAGES
    requires HugeLink(ss[k], root, evs[k], v)
    ensures Translate(ss[k].world.mem, root, v) == Fault
    ensures var x := Translate(ss[k + 1].world.mem, root, v); x.Mapped? && x.level == 2
  {
    RunSafe(ss, evs, root, k);
    assert Follows(ss, evs, root, k);
    var AtTable(n, t, leaf, page, phys, flags) := ss[k].pc;
    LevelApply(ss[k], root);
    GibLinked(ss[k].world, root, t, page, flags, v);
  }

  /** TLB coherence over runs of calls with any flags, if each 2 MiB call starts on a block that
      holds no other page mapped by a 4 KiB entry: a cached translation differs from the current
      one only under the leaf being mapped, between its write and its flush, and the flush
      drops it; in a 4 KiB call that is the page itself. */
  lemma {:induction false} RunCoherent(ss: seq<System>, evs: seq<Event>, root: nat, k: nat)
    requires IsRun(ss, evs, root) && SysInv(ss[0], root) && ss[0].pc.Idle? && Coherent(ss[0], root) && k <= |evs|
    requires forall j :: 0 <= j < k ==> StartsReady(ss[j], root, evs[j])
    ensures forall v :: v in ss[k].tlb && ss[k].tlb[v] != Translate(ss[k].world.mem, root, v) ==>
              && InWindow(ss[k].pc, v) && (ss[k].pc.leaf == 0 ==> v == ss[k].pc.page)
              && v !in Invlpg(ss[k].tlb, ss[k].pc.page)
    ensures Coherent(ss[k], root) && LeafReady(ss[k], root)
  {
    if 0 < k {
      RunCoherent(ss, evs, root, k - 1);
      RunSafe(ss, evs, root, k - 1);
      assert Follows(ss, evs, root, k - 1);
      StepCoherent(ss[k - 1], root, evs[k - 1]);
    }
    assert forall v: nat :: v in ss[k].tlb ==> EntryCoherent(ss[k], root, v);
  }

  /** The remaining steps of a call: its levels, the leaf write and the flush. */
  function Steps(s: System, root: nat, n: nat): (r: System)
    requires Sane(s.world)
    ensures Sane(r.world)
    decreases n
  {
    if n == 0 || s.pc.Idle? then s else Steps(Apply(s, root, Advance), root, n - 1)
  }

  /** k steps end the call with this memory and table. */
  ghost predicate Ends(s: System, root: nat, k: nat, w: World)
    requires Sane(s.world)
  {
    Steps(s, root, k).pc.Idle? && Steps(s, root, k).world == w
  }

  lemma {:induction false} EndsAtLeafWrite(s: System, root: nat)
    requires Sane(s.world) && s.pc.AtTable? && s.pc.n + s.pc.leaf == 3
    ensures Ends(s, root, 2, WriteLeaf(s.world, s.pc.t, Digit(s.pc.page, s.pc.leaf), LeafEntry(s.pc.phys, s.pc.flags)))
  {
    var s' := Apply(s, root, Advance);
    assert Steps(s, root, 2) == Steps(s', root, 1);
    assert Steps(s', root, 1) == Steps(Apply(s', root, Advance), root, 0);
  }

  lemma {:induction false} EndsBelow(s: System, s1: System, root: nat, k: nat, w: World)
    requires Sane(s.world) && s.pc.AtTable? && s.pc.n + s.pc.leaf < 3 && 0 < k
    requires s1 == Apply(s, root, Advance) && Ends(s1, root, k - 1, w)
    ensures Ends(s, root, k, w)
  {
    assert Steps(s, root, k) == Steps(s1, root, k - 1);
  }

  predicate OnItsWay(s: System) { s.pc.AtTable? && s.pc.n + s.pc.leaf <= 3 }

  /** Memory and table when the call that is on its way has ended. */
  function Outcome(s: System): World
    requires Sane(s.world) && OnItsWay(s)
  {
    MapFrom(s.world, s.pc.n, s.pc.t, s.pc.leaf, s.pc.page, LeafEntry(s.pc.phys, s.pc.flags), s.pc.flags).0
  }

  /** A level leads to a state with the same outcome. */
  lemma {:induction false} OutcomeStep(s: System, root: nat)
    requires Sane(s.world) && OnItsWay(s) && s.pc.n + s.pc.leaf < 3
    ensures var s1 := Apply(s, root, Advance);
            if s1.pc.Idle? then s1.world == Outcome(s)
            else OnItsWay(s1) && s1.pc.n == s.pc.n + 1 && s1.pc.leaf == s.pc.leaf && Outcome(s1) == Outcome(s)
  {
    var AtTable(n, t, leaf, page, phys, flags) := s.pc;
    MapFromStep(s.world, n, t, leaf, page, LeafEntry(phys, flags), flags);
    LevelApply(s, root);
  }

  lemma {:induction false} OutcomeAtLeaf(s: System, root: nat, k: nat)
    requires Sane(s.world) && OnItsWay(s) && s.pc.n + s.pc.leaf == 3 && k == 2
    ensures Ends(s, root, k, Outcome(s))
  {
    EndsAtLeafWrite(s, root);
  }

  lemma {:induction false} EndsIdle(s: System, root: nat, k: nat)
    requires Sane(s.world) && s.pc.Idle?
    ensures Ends(s, root, k, s.world)
  {
  }

  /** From the state after n levels a call takes k more steps. */
  lemma {:induction false} StepsAreMapFrom(s: System, root: nat, k: nat)
    requires Sane(s.world) && OnItsWay(s) && k == 5 - s.pc.leaf - s.pc.n
    ensures Ends(s, root, k, Outcome(s))
    decreases k
  {
    if s.pc.n + s.pc.leaf == 3 {
      OutcomeAtLeaf(s, root, k);
    } else {
      var s1 := Apply(s, root, Advance);
      OutcomeStep(s, root);
      if s1.pc.Idle? { EndsIdle(s1, root, k - 1); } else { StepsAreMapFrom(s1, root, k - 1); }
      EndsBelow(s, s1, root, k, Outcome(s));
    }
  }

  /** The steps of a call, run to the end, are `map_page`. */
  lemma {:induction false} StepsAreMapCall(s: System, root: nat, virt: Word, phys: Word, flags: Word)
    requires Sane(s.world) && s.pc.Idle?
    ensures var r := Steps(Apply(s, root, BeginMap(virt, phys, flags)), root, 5 - LeafOf(flags));
            r.pc.Idle? && r.world == MapCall(s.world, root, virt, phys, flags).0
  {
    var s0 := s.(pc := AtTable(0, root, LeafOf(flags), PageOf(virt), phys, flags));
    assert Apply(s, root, BeginMap(virt, phys, flags)) == s0;
    MapCallLevels(s.world, root, virt, phys, flags);
    StepsAreMapFrom(s0, root, 5 - LeafOf(flags));
  }
}
