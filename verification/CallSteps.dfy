/** What one level, the leaf write and the whole of a `map_page` call do to the translation,
    whatever the flags and whatever large pages or malformed entries the call meets. */
module CallSteps {
  import opened Words
  import opened RegionTable
  import opened Pmm
  import opened PageWalk
  import opened PageMapping

  const GIB_PAGES: nat := 0x4_0000

  // ---------------------------------------------------------------- walks through the tables

  ghost predicate OnTree(m: Memory, root: nat, n: nat, t: nat, page: nat) {
    n <= 3 && Tab(m, root, PathOf(page, n)) == At(t)
  }

  /** A walk passes on what it finds below a table, limited in its rights. */
  lemma {:induction false} WalkThrough(m: Memory, table: nat, level: nat, page: nat, t: nat)
    requires 0 < level && Child(EntryAt(m, table, Digit(page, level))) == At(t)
    ensures var x, y := Walk(m, table, level, page), Walk(m, t, level - 1, page);
            (x.Mapped? <==> y.Mapped?) && (x.Mapped? ==> x.level == y.level)
  {
  }

  /** A page is mapped, and by which size of page, as seen from any table on its walk. */
  lemma {:induction false} LevelFound(m: Memory, root: nat, page: nat, n: nat, t: nat)
    requires OnTree(m, root, n, t, page)
    ensures var x, y := Translate(m, root, page), Walk(m, t, 3 - n, page);
            (x.Mapped? <==> y.Mapped?) && (x.Mapped? ==> x.level == y.level)
    decreases n
  {
    if 0 < n {
      PathStep(page, n - 1);
      TabStep(m, root, PathOf(page, n - 1), Digit(page, 4 - n));
      var f := Tab(m, root, PathOf(page, n - 1)).frame;
      WalkThrough(m, f, 4 - n, page, t);
      LevelFound(m, root, page, n - 1, f);
    } else {
      assert PathOf(page, 0) == [];
    }
  }

  /** Under a large-page entry above the leaf level a page translates by that entry or not at
      all. */
  lemma {:induction false} LargeAbove(m: Memory, table: nat, level: nat, leaf: nat, page: nat)
    requires level <= 3 && !NoLarge(m, table, level, leaf, page)
    ensures var x := Walk(m, table, level, page); x.Mapped? ==> x.level > leaf
    decreases level
  {
    var e := EntryAt(m, table, Digit(page, level));
    if Child(e).At? {
      WalkThrough(m, table, level, page, FrameOf(e));
      LargeAbove(m, FrameOf(e), level - 1, leaf, page);
    }
  }

  // ---------------------------------------------------------------- frames outside the tree

  ghost predicate NoTable(m: Memory, root: nat, z: nat) {
    forall q :: IsPath(q) ==> Tab(m, root, q) != At(z)
  }

  /** Frame t, and every frame that a call follows below it, is no page table. */
  ghost predicate OffTree(m: Memory, root: nat, t: nat, level: nat, leaf: nat, page: nat)
    decreases level
  {
    && NoTable(m, root, t)
    && (level > leaf ==>
          var e := EntryAt(m, t, Digit(page, level));
          Present(e) ==> OffTree(m, root, e / PAGE_SIZE, level - 1, leaf, page))
  }

  /** Where a call meets an entry with the page-size bit above its leaf level, it follows frames
      that are no page tables from there on. */
  ghost predicate Passable(m: Memory, root: nat, t: nat, level: nat, leaf: nat, page: nat)
    decreases level
  {
    level <= leaf ||
    var e := EntryAt(m, t, Digit(page, level));
    !Present(e) ||
    if Large(e) then OffTree(m, root, e / PAGE_SIZE, level - 1, leaf, page)
    else Passable(m, root, FrameOf(e), level - 1, leaf, page)
  }

  lemma {:induction false} NoLargePassable(m: Memory, root: nat, t: nat, level: nat, leaf: nat, page: nat)
    requires NoLarge(m, t, level, leaf, page)
    ensures Passable(m, root, t, level, leaf, page)
    decreases level
  {
    var e := EntryAt(m, t, Digit(page, level));
    if level > leaf && Present(e) { NoLargePassable(m, root, FrameOf(e), level - 1, leaf, page); }
  }

  /** Every present entry of the frame refers to the frame itself; an all-zero frame has none. */
  ghost predicate Blank(m: Memory, y: nat) {
    forall d: nat :: d < ENTRIES && Present(EntryAt(m, y, d)) ==> EntryAt(m, y, d) / PAGE_SIZE == y
  }

  lemma {:induction false} BlankOffTree(m: Memory, root: nat, y: nat, level: nat, leaf: nat, page: nat)
    requires NoTable(m, root, y) && Blank(m, y)
    ensures OffTree(m, root, y, level, leaf, page)
    decreases level
  {
    var e := EntryAt(m, y, Digit(page, level));
    if level > leaf && Present(e) { BlankOffTree(m, root, y, level - 1, leaf, page); }
  }

  /** Where a table is missing, the frame taken for it is blank after the link, even if it is
      the frame in which the link is made. */
  lemma {:induction false} TakenBlank(w: World, t: nat, i: nat, flags: Word)
    requires Sane(w) && i < ENTRIES && !Present(EntryAt(w.mem, t, i)) && Taken(w.table, PAGE_SIZE)
    ensures var (w', c) := EnsureTable(w, t, i, flags);
            && c == At(TakePage(w).1 / PAGE_SIZE) && Blank(w'.mem, c.frame)
            && ENTRIES * c.frame + ENTRIES <= |w.mem| == |w'.mem|
  {
    TakenZero(w);
    var (w1, addr) := TakePage(w);
    var y, e := addr / PAGE_SIZE, MakeEntry(addr, flags);
    EntryBits(addr, flags);
    forall d: nat | d < ENTRIES
      ensures EntryAt(SetEntry(w1.mem, t, i, e), y, d) == 0 || EntryAt(SetEntry(w1.mem, t, i, e), y, d) == e
    {
      assert EntryAt(w1.mem, y, d) == 0;
    }
  }

  /** Frame t and every frame that a call follows below it lie in memory. */
  predicate Bounded(m: Memory, t: nat, level: nat, leaf: nat, page: nat)
    decreases level
  {
    && ENTRIES * t + ENTRIES <= |m|
    && (level > leaf ==>
          var e := EntryAt(m, t, Digit(page, level)); Present(e) ==> Bounded(m, e / PAGE_SIZE, level - 1, leaf, page))
  }

  lemma {:induction false} BlankBounded(m: Memory, y: nat, level: nat, leaf: nat, page: nat)
    requires Blank(m, y) && ENTRIES * y + ENTRIES <= |m|
    ensures Bounded(m, y, level, leaf, page)
    decreases level
  {
    var e := EntryAt(m, y, Digit(page, level));
    if level > leaf && Present(e) { BlankBounded(m, y, level - 1, leaf, page); }
  }

  /** One level down the frames that remain to be followed still lie in memory. */
  lemma {:induction false} BoundedStep(w: World, t: nat, level: nat, leaf: nat, page: nat, flags: Word)
    requires Sane(w) && leaf < level && Bounded(w.mem, t, level, leaf, page)
    ensures var (w', c) := EnsureTable(w, t, Digit(page, level), flags);
            c.At? ==> Bounded(w'.mem, c.frame, level - 1, leaf, page)
  {
    var (w', c) := EnsureTable(w, t, Digit(page, level), flags);
    if !Present(EntryAt(w.mem, t, Digit(page, level))) && c.At? {
      TakenBlank(w, t, Digit(page, level), flags);
      BlankBounded(w'.mem, c.frame, level - 1, leaf, page);
    }
  }

  /** Tables lie in memory, so on a path without large pages nothing else is needed. */
  lemma {:induction false} TreeBounded(w: World, root: nat, n: nat, t: nat, leaf: nat, page: nat)
    requires Standing(w, root, n, t, leaf, page)
    ensures Bounded(w.mem, t, 3 - n, leaf, page)
    decreases 3 - n
  {
    PathStep(page, n);
    var i := Digit(page, 3 - n);
    if n + leaf < 3 && Present(EntryAt(w.mem, t, i)) {
      FollowLevel(w, root, PathOf(page, n), t, i, 0);
      TreeBounded(w, root, n + 1, EntryAt(w.mem, t, i) / PAGE_SIZE, leaf, page);
    }
  }

  /** Writing into a frame that is not a table changes no entry of a table. */
  lemma {:induction false} OffTreeWrite(m: Memory, root: nat, z: nat, i: nat, e: Word)
    requires Tree(m, root) && i < ENTRIES && NoTable(m, root, z)
    ensures SameTables(m, SetEntry(m, z, i, e), root)
    ensures Tree(SetEntry(m, z, i, e), root)
    ensures forall q :: IsPath(q) ==> Tab(SetEntry(m, z, i, e), root, q) == Tab(m, root, q)
    ensures forall v :: Translate(SetEntry(m, z, i, e), root, v) == Translate(m, root, v)
  {
    var m' := SetEntry(m, z, i, e);
    assert SameTables(m, m', root);
    SameTablesTree(m, m', root);
    forall v
      ensures Translate(m', root, v) == Translate(m, root, v)
    {
      SameWalk(m, m', root, root, 3, 0, v, 0);
    }
  }

  /** Taking a page changes no translation. */
  lemma {:induction false} TakenSame(w: World, root: nat)
    requires Inv(w, root)
    ensures forall v :: Translate(TakePage(w).0.mem, root, v) == Translate(w.mem, root, v)
    ensures Tree(TakePage(w).0.mem, root)
    ensures forall q :: IsPath(q) ==> Tab(TakePage(w).0.mem, root, q) == Tab(w.mem, root, q)
  {
    TakePageKeeps(w, root);
    if Taken(w.table, PAGE_SIZE) {
      SameTablesTree(w.mem, TakePage(w).0.mem, root);
      forall v
        ensures Translate(TakePage(w).0.mem, root, v) == Translate(w.mem, root, v)
      {
        SameWalk(w.mem, TakePage(w).0.mem, root, root, 3, 0, v, 0);
      }
    }
  }

  /** One level through a frame that is no table changes no translation and no table. */
  lemma {:induction false} OffTreeLevel(w: World, root: nat, z: nat, i: nat, flags: Word)
    requires Inv(w, root) && NoTable(w.mem, root, z) && i < ENTRIES
    ensures var (w', c) := EnsureTable(w, z, i, flags);
            && Inv(w', root) && TablesGrown(w, w', root)
            && (forall v :: Translate(w'.mem, root, v) == Translate(w.mem, root, v))
            && (forall q :: IsPath(q) ==> Tab(w'.mem, root, q) == Tab(w.mem, root, q))
            && (!Present(EntryAt(w.mem, z, i)) && c.At? ==> NoTable(w'.mem, root, c.frame))
  {
    TakePageKeeps(w, root);
    TakenSame(w, root);
    var (w1, addr) := TakePage(w);
    if !Present(EntryAt(w.mem, z, i)) && addr != 0 { OffTreeWrite(w1.mem, root, z, i, MakeEntry(addr, flags)); }
  }

  ghost predicate OffKept(w: World, w': World, root: nat) {
    && Inv(w', root) && TablesGrown(w, w', root)
    && forall v :: Translate(w'.mem, root, v) == Translate(w.mem, root, v)
  }

  lemma {:induction false} OffFollowed(w: World, root: nat, t: nat, level: nat, leaf: nat, page: nat, flags: Word)
    requires Sane(w) && OffTree(w.mem, root, t, level, leaf, page) && leaf < level
    requires Present(EntryAt(w.mem, t, Digit(page, level)))
    ensures var (w', c) := EnsureTable(w, t, Digit(page, level), flags);
            w' == w && c.At? && OffTree(w'.mem, root, c.frame, level - 1, leaf, page)
  {
  }

  lemma {:induction false} OffLinked(w: World, root: nat, t: nat, i: nat, level: nat, leaf: nat, page: nat, flags: Word)
    requires Inv(w, root) && NoTable(w.mem, root, t) && i < ENTRIES && !Present(EntryAt(w.mem, t, i))
    ensures var (w', c) := EnsureTable(w, t, i, flags);
            if c.At? then OffTree(w'.mem, root, c.frame, level, leaf, page) else w' == w
  {
    TakePageKeeps(w, root);
    if Taken(w.table, PAGE_SIZE) {
      OffTreeLevel(w, root, t, i, flags);
      TakenBlank(w, t, i, flags);
      var (w', c) := EnsureTable(w, t, i, flags);
      BlankOffTree(w'.mem, root, c.frame, level, leaf, page);
    }
  }

  lemma {:induction false} OffNext(w: World, root: nat, t: nat, level: nat, leaf: nat, page: nat, flags: Word)
    requires Inv(w, root) && OffTree(w.mem, root, t, level, leaf, page) && leaf < level
    ensures var (w', c) := EnsureTable(w, t, Digit(page, level), flags);
            if c.At? then OffTree(w'.mem, root, c.frame, level - 1, leaf, page) else w' == w
  {
    if Present(EntryAt(w.mem, t, Digit(page, level))) {
      OffFollowed(w, root, t, level, leaf, page, flags);
    } else {
      OffLinked(w, root, t, Digit(page, level), level - 1, leaf, page, flags);
    }
  }

  lemma {:induction false} OffStep(w: World, root: nat, t: nat, level: nat, leaf: nat, page: nat, flags: Word)
    requires Inv(w, root) && OffTree(w.mem, root, t, level, leaf, page) && leaf < level
    ensures var (w', c) := EnsureTable(w, t, Digit(page, level), flags);
            OffKept(w, w', root) && if c.At? then OffTree(w'.mem, root, c.frame, level - 1, leaf, page) else w' == w
  {
    OffTreeLevel(w, root, t, Digit(page, level), flags);
    OffNext(w, root, t, level, leaf, page, flags);
  }

  // ---------------------------------------------------------------- links that refer to no table

  /** The walk ends at this entry with a fault. */
  predicate Faulty(e: Word, level: nat) {
    !Present(e) || (Large(e) && !LeafShape(e, level))
  }

  lemma {:induction false} FaultyBelow(m: Memory, root: nat, n: nat, t: nat, page: nat)
    requires OnTree(m, root, n, t, page) && Faulty(EntryAt(m, t, Digit(page, 3 - n)), 3 - n)
    ensures Translate(m, root, page) == Fault
  {
    LevelFound(m, root, page, n, t);
  }

  /** An empty slot gets an entry that refers to no table: pages under it were unmapped, and
      stay so if the entry is faulty; the others translate as before. */
  lemma {:induction false} DeadEntry(m: Memory, m': Memory, root: nat, p: seq<nat>, t: nat, i: nat, e: Word, v: nat)
    requires EntryWrite(m, m', root, p, t, i, e) && !Present(EntryAt(m, t, i)) && Child(e).Absent?
    ensures p + [i] <= PathOf(v, 4) ==> Translate(m, root, v) == Fault
    ensures Translate(m, root, v).Mapped? || Faulty(e, 3 - |p|) || !(p + [i] <= PathOf(v, 4)) ==>
              Translate(m', root, v) == Translate(m, root, v)
  {
    var n := |p|;
    if p + [i] <= PathOf(v, 4) {
      PathPrefix(v, n);
      PathStep(v, n);
      assert p == PathOf(v, n) && Digit(v, 3 - n) == (p + [i])[n];
      FaultyBelow(m, root, n, t, v);
      LeafTree(m, m', root, p, t, i, e);
      WrittenEntry(m, m', root, p, t, i, e, t, i);
      if Faulty(e, 3 - n) { FaultyBelow(m', root, n, t, v); }
    } else {
      WalkKept(m, m', root, p, t, i, e, root, 3, 0, v, 0);
    }
  }

  /** A missing table is linked by an entry that refers to no table, because it has the HUGE
      bit or lacks the PRESENT bit. */
  lemma {:induction false} DeadLink(w: World, root: nat, p: seq<nat>, t: nat, i: nat, flags: Word)
    requires Inv(w, root) && IsPath(p) && |p| < 3 && Tab(w.mem, root, p) == At(t) && i < ENTRIES
    requires !Present(EntryAt(w.mem, t, i)) && Taken(w.table, PAGE_SIZE) && (Large(flags) || !Present(flags))
    ensures var (w', c) := EnsureTable(w, t, i, flags);
            var e := MakeEntry(TakePage(w).1, flags);
            && c.At? && Inv(w', root) && NoTable(w'.mem, root, c.frame) && TablesGrown(w, w', root)
            && EntryAt(w'.mem, t, i) == e && Tab(w'.mem, root, p) == At(t)
            && (forall v :: Translate(w.mem, root, v).Mapped? || Faulty(e, 3 - |p|) || !(p + [i] <= PathOf(v, 4)) ==>
                  Translate(w'.mem, root, v) == Translate(w.mem, root, v))
  {
    var (w1, addr) := TakePage(w);
    var e := MakeEntry(addr, flags);
    TakePageKeeps(w, root);
    TakenSame(w, root);
    EntryBits(addr, flags);
    var m := SetEntry(w1.mem, t, i, e);
    assert EntryWrite(w1.mem, m, root, p, t, i, e);
    assert EntryAt(w1.mem, t, i) == EntryAt(w.mem, t, i);
    LeafTree(w1.mem, m, root, p, t, i, e);
    WrittenEntry(w1.mem, m, root, p, t, i, e, t, i);
    forall v | Translate(w.mem, root, v).Mapped? || Faulty(e, 3 - |p|) || !(p + [i] <= PathOf(v, 4))
      ensures Translate(m, root, v) == Translate(w.mem, root, v)
    {
      DeadEntry(w1.mem, m, root, p, t, i, e, v);
    }
  }

  /** A table entry for frame z that has the HUGE bit is well formed as a 1 GiB page only if z
      is one of the first two frames of a GiB: bit 12 is not reserved. */
  lemma {:induction false} LinkReserved(addr: Word, flags: Word)
    requires addr % PAGE_SIZE == 0
    ensures Reserved(MakeEntry(addr, flags), 2) <==> addr / PAGE_SIZE % GIB_PAGES >= 2
  {
    var z := addr / PAGE_SIZE;
    assert MakeEntry(addr, flags) / 0x2000 == z / 2;
    assert z / 2 % 0x2_0000 == z % GIB_PAGES / 2;
  }

  /** The level links a missing second-level entry with the HUGE bit, to one of the first two
      frames of a GiB. */
  ghost predicate GibLink(w: World, root: nat, n: nat, t: nat, page: nat, flags: Word) {
    && n == 1 && OnTree(w.mem, root, 1, t, page) && Present(flags) && Large(flags)
    && !Present(EntryAt(w.mem, t, Digit(page, 2)))
    && Taken(w.table, PAGE_SIZE) && TakenBase(w.table, PAGE_SIZE) / PAGE_SIZE % GIB_PAGES < 2
  }

  lemma {:induction false} LinkFaulty(w: World, root: nat, n: nat, t: nat, page: nat, flags: Word)
    requires Sane(w) && n <= 2 && Taken(w.table, PAGE_SIZE) && OnTree(w.mem, root, n, t, page)
    requires !Present(EntryAt(w.mem, t, Digit(page, 3 - n)))
    requires (Large(flags) || !Present(flags)) && (Large(flags) ==> n <= 1)
    ensures Faulty(MakeEntry(TakePage(w).1, flags), 3 - n) <==> !GibLink(w, root, n, t, page, flags)
  {
    TakenZero(w);
    EntryBits(TakePage(w).1, flags);
    if n == 1 { LinkReserved(TakePage(w).1, flags); }
  }

  // ---------------------------------------------------------------- one level

  /** Where a call stands: in a table of the tree on its path, or in a frame outside the tree;
      and it will not take a frame for a table that is another table. */
  ghost predicate Going(w: World, root: nat, n: nat, t: nat, leaf: nat, page: nat) {
    && Inv(w, root) && n + leaf <= 3
    && ((OnTree(w.mem, root, n, t, page) && Passable(w.mem, root, t, 3 - n, leaf, page))
        || OffTree(w.mem, root, t, 3 - n, leaf, page))
  }

  /** What a level promises: translations stay, except under a 1 GiB link; the call goes on. */
  ghost predicate LevelKept(w: World, w': World, root: nat, n: nat, t: nat, c: TableRef, leaf: nat, page: nat,
                            flags: Word) {
    && Inv(w', root) && TablesGrown(w, w', root) && (c.Absent? ==> w' == w)
    && (!GibLink(w, root, n, t, page, flags) ==> forall v :: Translate(w'.mem, root, v) == Translate(w.mem, root, v))
    && (forall v: nat :: v < VIRTUAL_PAGES && (Translate(w.mem, root, v).Mapped? || !SameLeaf(v, page, 2)) ==>
          Translate(w'.mem, root, v) == Translate(w.mem, root, v))
    && (c.At? ==> Going(w', root, n + 1, c.frame, leaf, page))
  }

  lemma {:induction false} DeadStep(w: World, root: nat, n: nat, t: nat, leaf: nat, page: nat, flags: Word)
    requires Going(w, root, n, t, leaf, page) && n + leaf < 3 && OnTree(w.mem, root, n, t, page) && page < VIRTUAL_PAGES
    requires !Present(EntryAt(w.mem, t, Digit(page, 3 - n))) && Taken(w.table, PAGE_SIZE)
    requires (Large(flags) ==> leaf == 1) && (Large(flags) || !Present(flags))
    ensures var (w', c) := EnsureTable(w, t, Digit(page, 3 - n), flags);
            && LevelKept(w, w', root, n, t, c, leaf, page, flags)
            && c.At? && OffTree(w'.mem, root, c.frame, 2 - n, leaf, page)
  {
    var p, i := PathOf(page, n), Digit(page, 3 - n);
    var (w', c) := EnsureTable(w, t, i, flags);
    PathStep(page, n);
    DeadLink(w, root, p, t, i, flags);
    LinkFaulty(w, root, n, t, page, flags);
    TakenBlank(w, t, i, flags);
    BlankOffTree(w'.mem, root, c.frame, 2 - n, leaf, page);
    forall v: nat | v < VIRTUAL_PAGES && (Translate(w.mem, root, v).Mapped? || !SameLeaf(v, page, 2))
      ensures Translate(w'.mem, root, v) == Translate(w.mem, root, v)
    {
      if GibLink(w, root, n, t, page, flags) && !SameLeaf(v, page, 2) { OtherGib(v, page); }
    }
  }

  lemma {:induction false} OtherGib(v: nat, page: nat)
    requires v < VIRTUAL_PAGES && page < VIRTUAL_PAGES && !SameLeaf(v, page, 2)
    ensures !(PathOf(page, 1) + [Digit(page, 2)] <= PathOf(v, 4))
  {
    SameGib(v, page);
    var p := PathOf(page, 1) + [Digit(page, 2)];
    assert p[0] == Digit(page, 3) && p[1] == Digit(page, 2);
    assert PathOf(v, 4)[0] == Digit(v, 3) && PathOf(v, 4)[1] == Digit(v, 2);
  }

  /** An empty slot is linked to a new table of the tree. */
  lemma {:induction false} LinkStep(w: World, root: nat, n: nat, t: nat, leaf: nat, page: nat, flags: Word)
    requires Going(w, root, n, t, leaf, page) && n + leaf < 3 && OnTree(w.mem, root, n, t, page)
    requires !Present(EntryAt(w.mem, t, Digit(page, 3 - n))) && Present(flags) && !Large(flags)
    ensures var (w', c) := EnsureTable(w, t, Digit(page, 3 - n), flags);
            LevelKept(w, w', root, n, t, c, leaf, page, flags)
  {
    var i := Digit(page, 3 - n);
    PathStep(page, n);
    EnsureLevel(w, root, PathOf(page, n), t, i, flags);
    var (w', c) := EnsureTable(w, t, i, flags);
    if c.At? {
      ZeroBelow(w'.mem, c.frame, 2 - n, leaf, page);
      NoLargePassable(w'.mem, root, c.frame, 2 - n, leaf, page);
    }
  }

  lemma {:induction false} FollowStep(w: World, root: nat, n: nat, t: nat, leaf: nat, page: nat, flags: Word)
    requires Going(w, root, n, t, leaf, page) && n + leaf < 3 && OnTree(w.mem, root, n, t, page)
    requires Present(EntryAt(w.mem, t, Digit(page, 3 - n)))
    requires Passable(w.mem, root, t, 3 - n, leaf, page)
    ensures var (w', c) := EnsureTable(w, t, Digit(page, 3 - n), flags);
            && w' == w && c == At(EntryAt(w.mem, t, Digit(page, 3 - n)) / PAGE_SIZE)
            && LevelKept(w, w', root, n, t, c, leaf, page, flags)
            && (if Large(EntryAt(w.mem, t, Digit(page, 3 - n))) then OffTree(w.mem, root, c.frame, 2 - n, leaf, page)
                else OnTree(w.mem, root, n + 1, c.frame, page) && c == Child(EntryAt(w.mem, t, Digit(page, 3 - n)))
                     && Passable(w.mem, root, c.frame, 2 - n, leaf, page))
  {
    var i := Digit(page, 3 - n);
    PathStep(page, n);
    if !Large(EntryAt(w.mem, t, i)) { FollowLevel(w, root, PathOf(page, n), t, i, flags); }
  }

  lemma {:induction false} TreeExclusive(m: Memory, root: nat, n: nat, t: nat, page: nat)
    requires OnTree(m, root, n, t, page)
    ensures !NoTable(m, root, t)
  {
    PathStep(page, n);
  }

  /** One level down, whatever the flags: translations stay, unless the level makes a 1 GiB page
      of an unmapped GiB. */
  lemma {:induction false} AnyStep(w: World, root: nat, n: nat, t: nat, leaf: nat, page: nat, flags: Word)
    requires Going(w, root, n, t, leaf, page) && n + leaf < 3 && page < VIRTUAL_PAGES && (Large(flags) ==> leaf == 1)
    ensures var (w', c) := EnsureTable(w, t, Digit(page, 3 - n), flags);
            LevelKept(w, w', root, n, t, c, leaf, page, flags)
  {
    if !OnTree(w.mem, root, n, t, page) {
      OffStep(w, root, t, 3 - n, leaf, page, flags);
    } else {
      TreeExclusive(w.mem, root, n, t, page);
      if Present(EntryAt(w.mem, t, Digit(page, 3 - n))) {
        FollowStep(w, root, n, t, leaf, page, flags);
      } else if Present(flags) && !Large(flags) {
        LinkStep(w, root, n, t, leaf, page, flags);
      } else if Taken(w.table, PAGE_SIZE) {
        DeadStep(w, root, n, t, leaf, page, flags);
      } else {
        TakePageKeeps(w, root);
      }
    }
  }

  /** A 2 MiB call that still stands in a table of the tree has changed nothing so far. */
  lemma {:induction false} HugeStands(w: World, root: nat, n: nat, t: nat, leaf: nat, page: nat, flags: Word)
    requires Going(w, root, n, t, leaf, page) && n + leaf < 3 && page < VIRTUAL_PAGES && Large(flags) && leaf == 1
    ensures var (w', c) := EnsureTable(w, t, Digit(page, 3 - n), flags);
            c.At? && OnTree(w'.mem, root, n + 1, c.frame, page) ==> w' == w && OnTree(w.mem, root, n, t, page)
  {
    var (w', c) := EnsureTable(w, t, Digit(page, 3 - n), flags);
    if c.At? && OnTree(w'.mem, root, n + 1, c.frame, page) {
      TreeExclusive(w'.mem, root, n + 1, c.frame, page);
      if !OnTree(w.mem, root, n, t, page) {
        OffStep(w, root, t, 3 - n, leaf, page, flags);
      } else if !Present(EntryAt(w.mem, t, Digit(page, 3 - n))) {
        TakePageKeeps(w, root);
        DeadStep(w, root, n, t, leaf, page, flags);
      }
    }
  }

  /** The write at the end of a call, whatever its flags. */
  lemma {:induction false} AnyLeaf(w: World, root: nat, t: nat, leaf: nat, page: nat, e: Word)
    requires leaf <= 1 && Going(w, root, 3 - leaf, t, leaf, page) && page < VIRTUAL_PAGES && (leaf == 0 || Large(e))
    ensures var w' := WriteLeaf(w, t, Digit(page, leaf), e);
            && Inv(w', root) && TablesGrown(w, w', root)
            && (!OnTree(w.mem, root, 3 - leaf, t, page) ==>
                  forall v :: Translate(w'.mem, root, v) == Translate(w.mem, root, v))
            && (forall v: nat :: v < VIRTUAL_PAGES && !SameLeaf(v, page, leaf) ==>
                  Translate(w'.mem, root, v) == Translate(w.mem, root, v))
  {
    if OnTree(w.mem, root, 3 - leaf, t, page) {
      LeafKeeps(w, root, t, leaf, page, e);
    } else {
      OffTreeWrite(w.mem, root, t, Digit(page, leaf), e);
    }
  }

  // ---------------------------------------------------------------- the whole call

  /** The rest of a call, down to a leaf entry that is fit for its level. */
  ghost predicate Calling(w: World, root: nat, n: nat, t: nat, leaf: nat, page: nat, e: Word, flags: Word) {
    && leaf <= 1 && Going(w, root, n, t, leaf, page) && page < VIRTUAL_PAGES
    && (Large(flags) ==> leaf == 1) && (leaf == 0 || Large(e))
  }

  /** A call that runs out of memory is invisible: no page translates otherwise than before. */
  lemma {:induction false} FailedFrom(w: World, root: nat, n: nat, t: nat, leaf: nat, page: nat, e: Word, flags: Word)
    requires Calling(w, root, n, t, leaf, page, e, flags)
    ensures var (w', done) := MapFrom(w, n, t, leaf, page, e, flags);
            !done ==> Inv(w', root) && forall v :: Translate(w'.mem, root, v) == Translate(w.mem, root, v)
    decreases 3 - n
  {
    if n + leaf < 3 {
      MapFromStep(w, n, t, leaf, page, e, flags);
      AnyStep(w, root, n, t, leaf, page, flags);
      var (w', c) := EnsureTable(w, t, Digit(page, 3 - n), flags);
      if c.At? { FailedFrom(w', root, n + 1, c.frame, leaf, page, e, flags); }
    }
  }

  /** The pages that are not under the leaf keep their mapping; only a 2 MiB call can give one
      to a page that had none. */
  ghost predicate OthersKept(m: Memory, m': Memory, root: nat, leaf: nat, page: nat, flags: Word) {
    forall v: nat ::
      v < VIRTUAL_PAGES && !SameLeaf(v, page, leaf) && (Translate(m, root, v).Mapped? || !Large(flags)) ==>
      Translate(m', root, v) == Translate(m, root, v)
  }

  lemma {:induction false} OthersFrom(w: World, root: nat, n: nat, t: nat, leaf: nat, page: nat, e: Word, flags: Word)
    requires Calling(w, root, n, t, leaf, page, e, flags)
    ensures var w' := MapFrom(w, n, t, leaf, page, e, flags).0;
            Inv(w', root) && OthersKept(w.mem, w'.mem, root, leaf, page, flags)
    decreases 3 - n
  {
    if n + leaf < 3 {
      MapFromStep(w, n, t, leaf, page, e, flags);
      AnyStep(w, root, n, t, leaf, page, flags);
      var (w', c) := EnsureTable(w, t, Digit(page, 3 - n), flags);
      if c.At? { OthersFrom(w', root, n + 1, c.frame, leaf, page, e, flags); }
    } else {
      AnyLeaf(w, root, t, leaf, page, e);
    }
  }

  /** The rest of a call that has left the tree changes no translation. */
  lemma {:induction false} OffTreeFrom(w: World, root: nat, n: nat, t: nat, leaf: nat, page: nat, e: Word, flags: Word)
    requires Inv(w, root) && n + leaf <= 3 && OffTree(w.mem, root, t, 3 - n, leaf, page)
    ensures var w' := MapFrom(w, n, t, leaf, page, e, flags).0;
            Inv(w', root) && forall v :: Translate(w'.mem, root, v) == Translate(w.mem, root, v)
    decreases 3 - n
  {
    if n + leaf < 3 {
      MapFromStep(w, n, t, leaf, page, e, flags);
      OffStep(w, root, t, 3 - n, leaf, page, flags);
      var (w', c) := EnsureTable(w, t, Digit(page, 3 - n), flags);
      if c.At? { OffTreeFrom(w', root, n + 1, c.frame, leaf, page, e, flags); }
    } else {
      OffTreeWrite(w.mem, root, t, Digit(page, leaf), e);
    }
  }

  /** A call that meets an entry with the page-size bit above its leaf level changes no
      translation. */
  lemma {:induction false} LargeFrom(w: World, root: nat, n: nat, t: nat, leaf: nat, page: nat, e: Word, flags: Word)
    requires Inv(w, root) && n + leaf <= 3 && OnTree(w.mem, root, n, t, page)
    requires Passable(w.mem, root, t, 3 - n, leaf, page) && !NoLarge(w.mem, t, 3 - n, leaf, page)
    ensures var w' := MapFrom(w, n, t, leaf, page, e, flags).0;
            Inv(w', root) && forall v :: Translate(w'.mem, root, v) == Translate(w.mem, root, v)
    decreases 3 - n
  {
    MapFromStep(w, n, t, leaf, page, e, flags);
    FollowStep(w, root, n, t, leaf, page, flags);
    var f := EntryAt(w.mem, t, Digit(page, 3 - n)) / PAGE_SIZE;
    if Large(EntryAt(w.mem, t, Digit(page, 3 - n))) {
      OffTreeFrom(w, root, n + 1, f, leaf, page, e, flags);
    } else {
      LargeFrom(w, root, n + 1, f, leaf, page, e, flags);
    }
  }

  /** Without PRESENT in the flags nothing gets mapped: the page faults after a completed call. */
  lemma {:induction false} AbsentFrom(w: World, root: nat, n: nat, t: nat, leaf: nat, page: nat, e: Word, flags: Word)
    requires Calling(w, root, n, t, leaf, page, e, flags) && Standing(w, root, n, t, leaf, page)
    requires !Present(flags) && !Present(e)
    ensures var (w', done) := MapFrom(w, n, t, leaf, page, e, flags);
            done ==> Translate(w'.mem, root, page) == Fault
    decreases 3 - n
  {
    var i := Digit(page, 3 - n);
    if n + leaf == 3 {
      AbsentLeaf(w, root, n, t, leaf, page, e);
    } else {
      MapFromStep(w, n, t, leaf, page, e, flags);
      NoLargePassable(w.mem, root, t, 3 - n, leaf, page);
      if Present(EntryAt(w.mem, t, i)) {
        FollowStep(w, root, n, t, leaf, page, flags);
        AbsentFrom(w, root, n + 1, FrameOf(EntryAt(w.mem, t, i)), leaf, page, e, flags);
      } else {
        AbsentLink(w, root, n, t, leaf, page, e, flags);
      }
    }
  }

  lemma {:induction false} AbsentLink(w: World, root: nat, n: nat, t: nat, leaf: nat, page: nat, e: Word, flags: Word)
    requires Going(w, root, n, t, leaf, page) && n + leaf < 3 && OnTree(w.mem, root, n, t, page) && page < VIRTUAL_PAGES
    requires !Present(EntryAt(w.mem, t, Digit(page, 3 - n))) && !Present(flags) && (Large(flags) ==> leaf == 1)
    ensures var (w', done) := MapFrom(w, n, t, leaf, page, e, flags);
            done ==> Translate(w'.mem, root, page) == Fault
  {
    var (w', c) := EnsureTable(w, t, Digit(page, 3 - n), flags);
    MapFromStep(w, n, t, leaf, page, e, flags);
    FaultyBelow(w.mem, root, n, t, page);
    TakePageKeeps(w, root);
    if Taken(w.table, PAGE_SIZE) {
      DeadStep(w, root, n, t, leaf, page, flags);
      assert !GibLink(w, root, n, t, page, flags);
      OffTreeFrom(w', root, n + 1, c.frame, leaf, page, e, flags);
    }
  }

  lemma {:induction false} AbsentLeaf(w: World, root: nat, n: nat, t: nat, leaf: nat, page: nat, e: Word)
    requires Inv(w, root) && leaf <= 1 && n + leaf == 3 && OnTree(w.mem, root, n, t, page) && !Present(e)
    ensures Translate(WriteLeaf(w, t, Digit(page, leaf), e).mem, root, page) == Fault
  {
    var p, i := PathOf(page, n), Digit(page, leaf);
    var m := SetEntry(w.mem, t, i, e);
    PathStep(page, n);
    LeafTree(w.mem, m, root, p, t, i, e);
    WrittenEntry(w.mem, m, root, p, t, i, e, t, i);
    FaultyBelow(m, root, n, t, page);
  }
}
