/** The hardware page walk of 4-level paging (section 4.5 of the Intel SDM, volume 3A) as a
    function of physical memory, and how single writes to memory affect it. */
module PageWalk {
  import opened Words

  const ENTRIES: nat := 512
  const FRAMES: nat := 0x100_0000_0000      // frame numbers have 40 bits (address bits 51:12)
  const MAX_ADDRESS: nat := 0x10_0000_0000_0000
  const VIRTUAL_PAGES: nat := 0x10_0000_0000

  // Bits of a paging-structure entry.
  predicate Present(e: Word) { e % 2 == 1 }
  predicate Writable(e: Word) { e / 2 % 2 == 1 }
  predicate User(e: Word) { e / 4 % 2 == 1 }
  predicate Large(e: Word) { e / 128 % 2 == 1 }
  function FrameOf(e: Word): nat { e / PAGE_SIZE % FRAMES }
  function LowBits(e: Word): nat { e % PAGE_SIZE }

  function EntryAt(m: Memory, frame: nat, i: nat): Word {
    if ENTRIES * frame + i < |m| then m[ENTRIES * frame + i] else 0
  }

  function SetEntry(m: Memory, frame: nat, i: nat, e: Word): (m': Memory)
    ensures |m'| == |m|
  {
    if ENTRIES * frame + i < |m| then m[ENTRIES * frame + i := e] else m
  }

  /** `level` is the level of the leaf: 0 for a 4 KiB page, 1 for 2 MiB, 2 for 1 GiB. */
  datatype Translation = Fault | Mapped(frame: nat, flags: nat, writable: bool, user: bool, level: nat) {
    /** The access rights of a walk are the conjunction over its entries. */
    function Under(e: Word): Translation {
      match this
      case Fault => Fault
      case Mapped(f, b, w, u, l) => Mapped(f, b, w && Writable(e), u && User(e), l)
    }
  }

  /** Number of pages below one entry of a table of the given level (0 for a page table, 3
      for the root). */
  function Span(level: nat): nat {
    if level == 0 then 1 else if level == 1 then 512 else if level == 2 then 0x4_0000 else 0x800_0000
  }

  function Digit(page: nat, level: nat): (d: nat)
    ensures d < ENTRIES
  {
    page / Span(level) % ENTRIES
  }

  /** The frame a leaf entry of the given level gives to `page`. */
  function LeafFrame(e: Word, level: nat, page: nat): nat {
    FrameOf(e) / Span(level) * Span(level) + page % Span(level)
  }

  /** The address bits inside a large page are reserved: 20:13 for 2 MiB, 29:13 for 1 GiB. */
  predicate Reserved(e: Word, level: nat) {
    if level == 1 then e / 0x2000 % 256 != 0 else level == 2 && e / 0x2000 % 0x2_0000 != 0
  }

  /** The present entry ends the walk at this level. */
  predicate LeafShape(e: Word, level: nat) {
    level == 0 || (Large(e) && level <= 2 && !Reserved(e, level))
  }

  function LeafMapping(e: Word, level: nat, page: nat): Translation {
    Mapped(LeafFrame(e, level, page), LowBits(e), Writable(e), User(e), level)
  }

  /** What the hardware makes of virtual page number `page`, from a table of this level on.
      The page-size bit ends the walk at levels 1 and 2 and is reserved at the root. */
  function Walk(m: Memory, table: nat, level: nat, page: nat): Translation
    decreases level
  {
    var e := EntryAt(m, table, Digit(page, level));
    if !Present(e) then Fault
    else if LeafShape(e, level) then LeafMapping(e, level, page)
    else if Large(e) then Fault
    else Walk(m, FrameOf(e), level - 1, page).Under(e)
  }

  function Translate(m: Memory, root: nat, page: nat): Translation {
    Walk(m, root, 3, page)
  }

  /** The rights that a leaf of level `leaf` with the given flags has at `page`: those of the
      flags, limited by the table entries already present on the way down. */
  function Rights(m: Memory, table: nat, level: nat, leaf: nat, page: nat, flags: Word): (bool, bool)
    decreases level
  {
    var e := EntryAt(m, table, Digit(page, level));
    if level <= leaf || Child(e).Absent? then (Writable(flags), User(flags))
    else
      var (w, u) := Rights(m, FrameOf(e), level - 1, leaf, page, flags);
      (w && Writable(e), u && User(e))
  }

  // ---------------------------------------------------------------- the tree of tables

  datatype TableRef = Absent | At(frame: nat)

  function Child(e: Word): TableRef {
    if Present(e) && !Large(e) then At(FrameOf(e)) else Absent
  }

  /** The table reached from the root along a sequence of entry indices. */
  function Tab(m: Memory, root: nat, p: seq<nat>): TableRef
    decreases |p|
  {
    if p == [] then At(root)
    else
      match Tab(m, root, p[..|p| - 1])
      case Absent => Absent
      case At(f) => Child(EntryAt(m, f, p[|p| - 1]))
  }

  predicate IsPath(p: seq<nat>) {
    |p| <= 3 && forall i :: 0 <= i < |p| ==> p[i] < ENTRIES
  }

  /** The entry indices that the walk of `page` uses, the first n of them. */
  function PathOf(page: nat, n: nat): (p: seq<nat>)
    requires n <= 4
    ensures |p| == n
    ensures forall i :: 0 <= i < n ==> p[i] == Digit(page, 3 - i)
  {
    seq(n, i requires 0 <= i < n => Digit(page, 3 - i))
  }

  /** Distinct paths reach distinct tables. */
  ghost predicate DistinctTables(m: Memory, root: nat) {
    forall p, q :: IsPath(p) && IsPath(q) && Tab(m, root, p).At? && Tab(m, root, p) == Tab(m, root, q) ==> p == q
  }

  /** Every table lies in memory, and its table entries use only address bits below 52, so
      that clearing the low 12 bits is enough to follow them. */
  ghost predicate TablesInMemory(m: Memory, root: nat) {
    && (forall p :: IsPath(p) && Tab(m, root, p).At? ==> ENTRIES * Tab(m, root, p).frame + ENTRIES <= |m|)
    && (forall p, i: nat :: IsPath(p) && |p| < 3 && Tab(m, root, p).At? && i < ENTRIES ==>
          var e := EntryAt(m, Tab(m, root, p).frame, i); Child(e).At? ==> e < MAX_ADDRESS)
  }

  ghost predicate Tree(m: Memory, root: nat) {
    DistinctTables(m, root) && TablesInMemory(m, root)
  }

  lemma {:induction false} TabStep(m: Memory, root: nat, p: seq<nat>, i: nat)
    ensures Tab(m, root, p + [i]) == match Tab(m, root, p) case Absent => Absent case At(f) => Child(EntryAt(m, f, i))
  {
    assert (p + [i])[..|p|] == p;
  }

  lemma {:induction false} PathStep(page: nat, n: nat)
    requires n < 4
    ensures PathOf(page, n + 1) == PathOf(page, n) + [Digit(page, 3 - n)]
    ensures n <= 3 ==> IsPath(PathOf(page, n))
  {
  }

  /** The four entry indices determine a 36-bit page number. */
  lemma {:induction false} PathInjective(page: nat, other: nat)
    requires page < VIRTUAL_PAGES && other < VIRTUAL_PAGES && PathOf(page, 4) == PathOf(other, 4)
    ensures page == other
  {
    assert Digit(page, 3) == PathOf(page, 4)[0] && Digit(other, 3) == PathOf(other, 4)[0];
    assert Digit(page, 2) == PathOf(page, 4)[1] && Digit(other, 2) == PathOf(other, 4)[1];
    assert Digit(page, 1) == PathOf(page, 4)[2] && Digit(other, 1) == PathOf(other, 4)[2];
    assert Digit(page, 0) == PathOf(page, 4)[3] && Digit(other, 0) == PathOf(other, 4)[3];
    DigitsSum(page);
    DigitsSum(other);
  }

  lemma {:induction false} DivDiv(x: nat, k: nat)
    requires k == 512 || k == 0x4_0000 || k == 0x800_0000
    ensures x / k / 512 == x / (512 * k)
    ensures x / k == 512 * (x / k / 512) + x / k % 512
  {
    if k == 512 {
      assert x / 512 / 512 == x / 0x4_0000;
    } else if k == 0x4_0000 {
      assert x / 0x4_0000 / 512 == x / 0x800_0000;
    } else {
      assert x / 0x800_0000 / 512 == x / 0x10_0000_0000;
    }
  }

  lemma {:induction false} TopDigit(page: nat)
    requires page < VIRTUAL_PAGES
    ensures page / 0x800_0000 < 512
  {
  }

  lemma {:induction false} DigitsSum(page: nat)
    requires page < VIRTUAL_PAGES
    ensures page == 0x800_0000 * Digit(page, 3) + 0x4_0000 * Digit(page, 2) + 512 * Digit(page, 1) + Digit(page, 0)
  {
    DivDiv(page, 512);
    DivDiv(page, 0x4_0000);
    TopDigit(page);
    assert page == 512 * (page / 512) + page % 512;
  }

  // ---------------------------------------------------------------- writes outside the tables

  /** The two memories hold the same entries in every table of the first. */
  ghost predicate SameTables(m: Memory, m': Memory, root: nat) {
    forall p, i: nat :: IsPath(p) && Tab(m, root, p).At? && i < ENTRIES ==>
      EntryAt(m', Tab(m, root, p).frame, i) == EntryAt(m, Tab(m, root, p).frame, i)
  }

  lemma {:induction false} SameTab(m: Memory, m': Memory, root: nat, p: seq<nat>)
    requires SameTables(m, m', root) && IsPath(p)
    ensures Tab(m', root, p) == Tab(m, root, p)
    decreases |p|
  {
    if p != [] {
      SameTab(m, m', root, p[..|p| - 1]);
    }
  }

  /** Walks agree at a level if the entry is the same and they agree below it. */
  lemma {:induction false} StepAlike(m: Memory, m': Memory, table: nat, level: nat, leaf: nat, page: nat, flags: Word)
    requires EntryAt(m', table, Digit(page, level)) == EntryAt(m, table, Digit(page, level))
    requires var e := EntryAt(m, table, Digit(page, level));
             0 < level && Child(e).At? ==>
               && Walk(m', FrameOf(e), level - 1, page) == Walk(m, FrameOf(e), level - 1, page)
               && Rights(m', FrameOf(e), level - 1, leaf, page, flags)
               == Rights(m, FrameOf(e), level - 1, leaf, page, flags)
    ensures Walk(m', table, level, page) == Walk(m, table, level, page)
    ensures Rights(m', table, level, leaf, page, flags) == Rights(m, table, level, leaf, page, flags)
  {
  }

  lemma {:induction false} SameWalk(m: Memory, m': Memory, root: nat, table: nat, level: nat, leaf: nat, page: nat,
                                    flags: Word)
    requires SameTables(m, m', root) && level <= 3 && Tab(m, root, PathOf(page, 3 - level)) == At(table)
    ensures Walk(m', table, level, page) == Walk(m, table, level, page)
    ensures Rights(m', table, level, leaf, page, flags) == Rights(m, table, level, leaf, page, flags)
    decreases level
  {
    PathStep(page, 3 - level);
    var d := Digit(page, level);
    var e := EntryAt(m, table, d);
    assert EntryAt(m', table, d) == e;
    if 0 < level && Child(e).At? {
      TabStep(m, root, PathOf(page, 3 - level), d);
      SameWalk(m, m', root, FrameOf(e), level - 1, leaf, page, flags);
    }
    StepAlike(m, m', table, level, leaf, page, flags);
  }

  // ---------------------------------------------------------------- writing one entry

  /** m' is m with entry i of the table at path p, which is frame f, set to e. */
  ghost predicate EntryWrite(m: Memory, m': Memory, root: nat, p: seq<nat>, f: nat, i: nat, e: Word) {
    && Tree(m, root) && IsPath(p) && i < ENTRIES && Tab(m, root, p) == At(f) && m' == SetEntry(m, f, i, e)
  }

  lemma {:induction false} WrittenEntry(m: Memory, m': Memory, root: nat, p: seq<nat>, f: nat, i: nat, e: Word,
                                        g: nat, d: nat)
    requires EntryWrite(m, m', root, p, f, i, e) && d < ENTRIES
    ensures EntryAt(m', g, d) == if g == f && d == i then e else EntryAt(m, g, d)
  {
    assert ENTRIES * f + i < |m|;
  }

  /** Tables whose path does not pass through the written entry stay where they are. */
  lemma {:induction false} TabKept(m: Memory, m': Memory, root: nat, p: seq<nat>, f: nat, i: nat, e: Word, q: seq<nat>)
    requires EntryWrite(m, m', root, p, f, i, e) && IsPath(q) && !(p + [i] <= q)
    ensures Tab(m', root, q) == Tab(m, root, q)
    decreases |q|
  {
    if q != [] {
      var r, d := q[..|q| - 1], q[|q| - 1];
      TabKept(m, m', root, p, f, i, e, r);
      if Tab(m, root, r).At? {
        var g := Tab(m, root, r).frame;
        WrittenEntry(m, m', root, p, f, i, e, g, d);
        assert q == r + [d];
        assert g == f ==> r == p;
      }
    }
  }

  /** Translations of pages whose walk does not use the written entry stay as they are. */
  lemma {:induction false} WalkKept(m: Memory, m': Memory, root: nat, p: seq<nat>, f: nat, i: nat, e: Word,
                                    table: nat, level: nat, leaf: nat, page: nat, flags: Word)
    requires EntryWrite(m, m', root, p, f, i, e) && !(p + [i] <= PathOf(page, 4))
    requires level <= 3 && Tab(m, root, PathOf(page, 3 - level)) == At(table)
    ensures Walk(m', table, level, page) == Walk(m, table, level, page)
    ensures Rights(m', table, level, leaf, page, flags) == Rights(m, table, level, leaf, page, flags)
    decreases level
  {
    var q, d := PathOf(page, 3 - level), Digit(page, level);
    PathStep(page, 3 - level);
    WrittenEntry(m, m', root, p, f, i, e, table, d);
    PathPrefix(page, 4 - level);
    assert table == f ==> q == p;
    var c := EntryAt(m, table, d);
    if 0 < level && Child(c).At? {
      TabStep(m, root, q, d);
      WalkKept(m, m', root, p, f, i, e, FrameOf(c), level - 1, leaf, page, flags);
    }
    StepAlike(m, m', table, level, leaf, page, flags);
  }

  lemma {:induction false} PathPrefix(page: nat, n: nat)
    requires n <= 4
    ensures PathOf(page, n) <= PathOf(page, 4)
  {
  }

  /** Writing a leaf, or clearing a slot: the tables below the entry go, the others stay, and
      the tables still form a tree. */
  lemma {:induction false} LeafTree(m: Memory, m': Memory, root: nat, p: seq<nat>, f: nat, i: nat, e: Word)
    requires EntryWrite(m, m', root, p, f, i, e) && (|p| == 3 || Child(e).Absent?)
    ensures Tree(m', root)
    ensures forall q :: IsPath(q) ==> Tab(m', root, q) == if p + [i] <= q then Absent else Tab(m, root, q)
  {
    forall q | IsPath(q)
      ensures Tab(m', root, q) == if p + [i] <= q then Absent else Tab(m, root, q)
    {
      if p + [i] <= q { BelowLeaf(m, m', root, p, f, i, e, q); } else { TabKept(m, m', root, p, f, i, e, q); }
    }
    forall q, d: nat | IsPath(q) && |q| < 3 && Tab(m', root, q).At? && d < ENTRIES
      ensures var c := EntryAt(m', Tab(m', root, q).frame, d); Child(c).At? ==> c < MAX_ADDRESS
    {
      WrittenEntry(m, m', root, p, f, i, e, Tab(m', root, q).frame, d);
    }
  }

  lemma {:induction false} BelowLeaf(m: Memory, m': Memory, root: nat, p: seq<nat>, f: nat, i: nat, e: Word,
                                     q: seq<nat>)
    requires EntryWrite(m, m', root, p, f, i, e) && (|p| == 3 || Child(e).Absent?) && IsPath(q) && p + [i] <= q
    ensures Tab(m', root, q) == Absent
    decreases |q|
  {
    var r := q[..|q| - 1];
    if |q| == |p| + 1 {
      assert r == p && q[|q| - 1] == i;
      TabKept(m, m', root, p, f, i, e, p);
      WrittenEntry(m, m', root, p, f, i, e, f, i);
    } else {
      assert p + [i] <= r;
      BelowLeaf(m, m', root, p, f, i, e, r);
    }
  }

  /** From this table on, the walk in m' ends at leaf entry e, with rights limited by the
      entries above it. */
  ghost predicate EndsAtLeaf(m: Memory, m': Memory, table: nat, level: nat, leaf: nat, page: nat, e: Word) {
    var (w, u) := Rights(m, table, level, leaf, page, e);
    Walk(m', table, level, page) == LeafMapping(e, leaf, page).(writable := w, user := u)
  }

  /** The leaf's own pages: the walk now ends at the leaf. */
  lemma {:induction false} LeafWalk(m: Memory, m': Memory, root: nat, p: seq<nat>, f: nat, i: nat, e: Word,
                                    table: nat, level: nat, leaf: nat, page: nat)
    requires EntryWrite(m, m', root, p, f, i, e) && leaf <= 1 && |p| == 3 - leaf && p + [i] <= PathOf(page, 4)
    requires Present(e) && LeafShape(e, leaf)
    requires leaf <= level <= 3 && Tab(m, root, PathOf(page, 3 - level)) == At(table)
    ensures EndsAtLeaf(m, m', table, level, leaf, page, e)
    decreases level
  {
    if level == leaf {
      LeafEntryWritten(m, m', root, p, f, i, e, table, leaf, page);
      LeafHere(m, m', table, leaf, page, e);
    } else {
      AboveLeaf(m, m', root, p, f, i, e, table, level, leaf, page);
      LeafWalk(m, m', root, p, f, i, e, FrameOf(EntryAt(m, table, Digit(page, level))), level - 1, leaf, page);
      LeafBelow(m, m', table, level, leaf, page, e);
    }
  }

  lemma {:induction false} LeafEntryWritten(m: Memory, m': Memory, root: nat, p: seq<nat>, f: nat, i: nat, e: Word,
                                            table: nat, leaf: nat, page: nat)
    requires EntryWrite(m, m', root, p, f, i, e) && leaf <= 1 && |p| == 3 - leaf && p + [i] <= PathOf(page, 4)
    requires Tab(m, root, PathOf(page, 3 - leaf)) == At(table)
    ensures EntryAt(m', table, Digit(page, leaf)) == e
  {
    PathPrefix(page, 3 - leaf);
    assert PathOf(page, 3 - leaf) == p && Digit(page, leaf) == (p + [i])[|p|];
    WrittenEntry(m, m', root, p, f, i, e, f, i);
  }

  /** Above the leaf the write changes no entry of the walk, and the entry refers to a table. */
  lemma {:induction false} AboveLeaf(m: Memory, m': Memory, root: nat, p: seq<nat>, f: nat, i: nat, e: Word,
                                     table: nat, level: nat, leaf: nat, page: nat)
    requires EntryWrite(m, m', root, p, f, i, e) && |p| == 3 - leaf && p + [i] <= PathOf(page, 4)
    requires leaf < level <= 3 && Tab(m, root, PathOf(page, 3 - level)) == At(table)
    ensures var c := EntryAt(m, table, Digit(page, level));
            && EntryAt(m', table, Digit(page, level)) == c && Child(c).At?
            && Tab(m, root, PathOf(page, 4 - level)) == Child(c)
  {
    var q, d := PathOf(page, 3 - level), Digit(page, level);
    PathStep(page, 3 - level);
    NextOnPath(m, root, p, i, page, level, table);
    TabStep(m, root, q, d);
    WrittenEntry(m, m', root, p, f, i, e, table, d);
    assert |q| != |p| && IsPath(q);
    assert table != f;
  }

  lemma {:induction false} LeafBelow(m: Memory, m': Memory, table: nat, level: nat, leaf: nat, page: nat, e: Word)
    requires leaf < level && EntryAt(m', table, Digit(page, level)) == EntryAt(m, table, Digit(page, level))
    requires var c := EntryAt(m, table, Digit(page, level));
             Child(c).At? && EndsAtLeaf(m, m', FrameOf(c), level - 1, leaf, page, e)
    ensures EndsAtLeaf(m, m', table, level, leaf, page, e)
  {
  }

  lemma {:induction false} LeafHere(m: Memory, m': Memory, table: nat, leaf: nat, page: nat, e: Word)
    requires EntryAt(m', table, Digit(page, leaf)) == e && Present(e) && LeafShape(e, leaf)
    ensures EndsAtLeaf(m, m', table, leaf, leaf, page, e)
  {
  }

  /** On the way to the table at path p, every entry refers to a table. */
  lemma {:induction false} NextOnPath(m: Memory, root: nat, p: seq<nat>, i: nat, page: nat, level: nat, table: nat)
    requires level <= 3 && 3 - level < |p| <= 3 && Tab(m, root, p).At? && p + [i] <= PathOf(page, 4)
    requires Tab(m, root, PathOf(page, 3 - level)) == At(table)
    ensures Child(EntryAt(m, table, Digit(page, level))).At?
  {
    PathPrefix(page, 4 - level);
    PathStep(page, 3 - level);
    TabPrefix(m, root, p, 4 - level);
    assert p[..4 - level] == PathOf(page, 4 - level);
    TabStep(m, root, PathOf(page, 3 - level), Digit(page, level));
  }

  lemma {:induction false} TabPrefix(m: Memory, root: nat, p: seq<nat>, n: nat)
    requires n <= |p| && Tab(m, root, p).At?
    ensures Tab(m, root, p[..n]).At?
    decreases |p|
  {
    if n < |p| {
      assert p[..|p| - 1][..n] == p[..n];
      TabPrefix(m, root, p[..|p| - 1], n);
    } else {
      assert p[..n] == p;
    }
  }

  // ---------------------------------------------------------------- linking a new table

  ghost predicate ZeroFrame(m: Memory, z: nat) {
    forall d: nat :: d < ENTRIES ==> EntryAt(m, z, d) == 0
  }

  /** An empty slot is made to point at a zeroed frame that is not yet a table. */
  ghost predicate Link(m: Memory, m': Memory, root: nat, p: seq<nat>, f: nat, i: nat, e: Word, z: nat) {
    && EntryWrite(m, m', root, p, f, i, e) && |p| < 3
    && !Present(EntryAt(m, f, i)) && Child(e) == At(z) && e < MAX_ADDRESS
    && ZeroFrame(m, z) && ENTRIES * z + ENTRIES <= |m|
    && (forall q :: IsPath(q) ==> Tab(m, root, q) != At(z))
  }

  /** Tables after a link: the ones before, and the new one at its place. */
  lemma {:induction false} LinkTab(m: Memory, m': Memory, root: nat, p: seq<nat>, f: nat, i: nat, e: Word, z: nat,
                                   q: seq<nat>)
    requires Link(m, m', root, p, f, i, e, z) && IsPath(q)
    ensures Tab(m', root, q) == if q == p + [i] then At(z) else Tab(m, root, q)
    decreases |q|
  {
    if !(p + [i] <= q) {
      TabKept(m, m', root, p, f, i, e, q);
    } else {
      var r, d := q[..|q| - 1], q[|q| - 1];
      LinkTab(m, m', root, p, f, i, e, z, r);
      if |q| == |p| + 1 {
        assert r == p && q == p + [i];
        WrittenEntry(m, m', root, p, f, i, e, f, i);
      } else {
        assert p + [i] <= r;
        assert |q| == |p| + 2 ==> r == p + [i];
        WrittenEntry(m, m', root, p, f, i, e, z, d);
        assert Tab(m, root, p) == At(f);
        UnderEmpty(m, root, p, f, i, r);
      }
    }
  }

  lemma {:induction false} UnderEmpty(m: Memory, root: nat, p: seq<nat>, f: nat, i: nat, q: seq<nat>)
    requires Tab(m, root, p) == At(f) && !Present(EntryAt(m, f, i)) && p + [i] <= q
    ensures Tab(m, root, q) == Absent
    decreases |q|
  {
    var r := q[..|q| - 1];
    if |q| == |p| + 1 {
      assert r == p && q[|q| - 1] == i;
    } else {
      assert p + [i] <= r;
      UnderEmpty(m, root, p, f, i, r);
    }
  }

  lemma {:induction false} LinkTree(m: Memory, m': Memory, root: nat, p: seq<nat>, f: nat, i: nat, e: Word, z: nat)
    requires Link(m, m', root, p, f, i, e, z)
    ensures Tree(m', root)
    ensures forall q :: IsPath(q) ==> Tab(m', root, q) == if q == p + [i] then At(z) else Tab(m, root, q)
  {
    forall q | IsPath(q)
      ensures Tab(m', root, q) == if q == p + [i] then At(z) else Tab(m, root, q)
    {
      LinkTab(m, m', root, p, f, i, e, z, q);
    }
    forall q, d: nat | IsPath(q) && |q| < 3 && Tab(m', root, q).At? && d < ENTRIES
      ensures var c := EntryAt(m', Tab(m', root, q).frame, d); Child(c).At? ==> c < MAX_ADDRESS
    {
      WrittenEntry(m, m', root, p, f, i, e, Tab(m', root, q).frame, d);
    }
  }

  lemma {:induction false} ZeroWalk(m: Memory, z: nat, level: nat, leaf: nat, page: nat, flags: Word)
    requires ZeroFrame(m, z)
    ensures Walk(m, z, level, page) == Fault
    ensures Rights(m, z, level, leaf, page, flags) == (Writable(flags), User(flags))
  {
  }

  /** A link changes no translation, and no rights that a leaf with the same flags would get. */
  lemma {:induction false} LinkWalk(m: Memory, m': Memory, root: nat, p: seq<nat>, f: nat, i: nat, e: Word, z: nat,
                                    table: nat, level: nat, leaf: nat, page: nat, flags: Word)
    requires Link(m, m', root, p, f, i, e, z)
    requires Writable(flags) == Writable(e) && User(flags) == User(e)
    requires level <= 3 && Tab(m, root, PathOf(page, 3 - level)) == At(table)
    ensures Walk(m', table, level, page) == Walk(m, table, level, page)
    ensures Rights(m', table, level, leaf, page, flags) == Rights(m, table, level, leaf, page, flags)
    decreases level
  {
    var d := Digit(page, level);
    var c := EntryAt(m, table, d);
    if table == f && d == i {
      assert level == 3 - |p| by { SameTable(m, root, p, f, PathOf(page, 3 - level)); }
      LinkHit(m, m', root, p, f, i, e, z, level, leaf, page, flags);
    } else {
      WrittenEntry(m, m', root, p, f, i, e, table, d);
      if 0 < level && Child(c).At? {
        PathStep(page, 3 - level);
        TabStep(m, root, PathOf(page, 3 - level), d);
        LinkWalk(m, m', root, p, f, i, e, z, FrameOf(c), level - 1, leaf, page, flags);
      }
      StepAlike(m, m', table, level, leaf, page, flags);
    }
  }

  lemma {:induction false} SameTable(m: Memory, root: nat, p: seq<nat>, f: nat, q: seq<nat>)
    requires Tree(m, root) && IsPath(p) && IsPath(q) && Tab(m, root, p) == At(f) && Tab(m, root, q) == At(f)
    ensures p == q
  {
  }

  /** Where the walk uses the linked entry it faulted before, and faults in the zeroed table
      now. */
  lemma {:induction false} LinkHit(m: Memory, m': Memory, root: nat, p: seq<nat>, f: nat, i: nat, e: Word, z: nat,
                level: nat, leaf: nat, page: nat, flags: Word)
    requires Link(m, m', root, p, f, i, e, z) && Digit(page, level) == i && 0 < level <= 3
    requires Writable(flags) == Writable(e) && User(flags) == User(e)
    ensures Walk(m', f, level, page) == Walk(m, f, level, page)
    ensures Rights(m', f, level, leaf, page, flags) == Rights(m, f, level, leaf, page, flags)
  {
    WrittenEntry(m, m', root, p, f, i, e, f, i);
    forall k: nat | k < ENTRIES
      ensures EntryAt(m', z, k) == 0
    {
      WrittenEntry(m, m', root, p, f, i, e, z, k);
    }
    ZeroWalk(m', z, level - 1, leaf, page, flags);
  }
}
