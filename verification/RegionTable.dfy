/** The region table of the physical memory manager (mm/pmm.cpp) as a value: what
    `alloc_pages` and `free_pages` do to it, and what every such step keeps. */
module RegionTable {
  import opened Words

  const MAX_REGIONS: nat := 64

  datatype Region = Region(base: nat, len: nat, isFree: bool) {
    function End(): nat { base + len }

    predicate Fits(sz: nat) { isFree && len >= sz }

    predicate Covers(a: int) { base <= a < End() }
  }

  type Table = seq<Region>
  type Block = (nat, nat)

  predicate WholePages(r: Region) {
    0 < r.len && r.base % PAGE_SIZE == 0 && r.len % PAGE_SIZE == 0 && r.End() < TWO64
  }

  ghost predicate Ordered(t: Table) {
    forall i, j :: 0 <= i < j < |t| ==> t[i].End() <= t[j].base
  }

  /** Page-aligned, non-empty entries below 2^64, strictly ordered and disjoint. */
  ghost predicate Valid(t: Table) {
    && |t| <= MAX_REGIONS
    && (forall i :: 0 <= i < |t| ==> WholePages(t[i]))
    && Ordered(t)
  }

  ghost predicate Covered(t: Table, a: int) {
    exists i :: 0 <= i < |t| && t[i].Covers(a)
  }

  ghost predicate FreeByte(t: Table, a: int) {
    exists i :: 0 <= i < |t| && t[i].isFree && t[i].Covers(a)
  }

  ghost predicate InBlock(b: Block, a: int) {
    b.0 <= a < b.0 + b.1
  }

  /** The blocks recorded as allocated. */
  ghost function UsedBlocks(t: Table): set<Block> {
    set i | 0 <= i < |t| && !t[i].isFree :: (t[i].base, t[i].len)
  }

  // ---------------------------------------------------------------- allocation

  /** Index of the first free entry of at least `sz` bytes, from `k` on; |t| if none. */
  function FirstFitFrom(t: Table, sz: nat, k: nat): (i: nat)
    requires k <= |t|
    ensures k <= i <= |t|
    ensures forall j :: k <= j < i ==> !t[j].Fits(sz)
    ensures i < |t| ==> t[i].Fits(sz)
    decreases |t| - k
  {
    if k == |t| || t[k].Fits(sz) then k else FirstFitFrom(t, sz, k + 1)
  }

  function FirstFit(t: Table, sz: nat): nat {
    FirstFitFrom(t, sz, 0)
  }

  function Split(t: Table, i: nat, sz: nat): Table
    requires i < |t| && sz <= t[i].len
  {
    t[..i] + [Region(t[i].base, sz, false), Region(t[i].base + sz, t[i].len - sz, true)] + t[i + 1..]
  }

  /** Whether a request for `sz` bytes takes a block. */
  predicate Taken(t: Table, sz: nat) {
    var i := FirstFit(t, sz);
    i < |t| && (t[i].len == sz || |t| < MAX_REGIONS)
  }

  function TakenBase(t: Table, sz: nat): nat
    requires Taken(t, sz)
  {
    t[FirstFit(t, sz)].base
  }

  /** The table after a request for `sz` bytes. */
  function Alloc(t: Table, sz: nat): Table {
    if !Taken(t, sz) then t
    else
      var i := FirstFit(t, sz);
      if t[i].len == sz then t[i := t[i].(isFree := false)] else Split(t, i, sz)
  }

  /** The value that a request for `sz` bytes returns; 0 stands for failure. */
  function AllocAddress(t: Table, sz: nat): nat {
    if Taken(t, sz) then TakenBase(t, sz) else 0
  }

  // ---------------------------------------------------------------- release

  predicate Matches(r: Region, base: nat, size: nat) {
    r.base == base && r.len == size
  }

  /** Index of the first entry with exactly this base and size, from `k` on; |t| if none. */
  function FindFrom(t: Table, base: nat, size: nat, k: nat): (i: nat)
    requires k <= |t|
    ensures k <= i <= |t|
    ensures forall j :: k <= j < i ==> !Matches(t[j], base, size)
    ensures i < |t| ==> Matches(t[i], base, size)
    decreases |t| - k
  {
    if k == |t| || Matches(t[k], base, size) then k else FindFrom(t, base, size, k + 1)
  }

  function Find(t: Table, base: nat, size: nat): nat {
    FindFrom(t, base, size, 0)
  }

  /** Entry i swallows entry i+1: its length grows by the neighbour's length. */
  function Absorb(t: Table, i: nat): Table
    requires i + 1 < |t|
  {
    t[..i] + [t[i].(len := t[i].len + t[i + 1].len)] + t[i + 2..]
  }

  function AbsorbFree(t: Table, i: nat): Table
    requires i < |t|
  {
    if i + 1 < |t| && t[i + 1].isFree then Absorb(t, i) else t
  }

  function MarkFree(t: Table, i: nat): Table
    requires i < |t|
  {
    t[i := t[i].(isFree := true)]
  }

  /** Coalesce entry i with a free left neighbour, then with a free right neighbour. */
  function Coalesce(t: Table, i: nat): Table
    requires i < |t|
  {
    if 0 < i && t[i - 1].isFree then AbsorbFree(Absorb(t, i - 1), i - 1) else AbsorbFree(t, i)
  }

  function Release(t: Table, i: nat): Table
    requires i < |t|
  {
    Coalesce(MarkFree(t, i), i)
  }

  function Free(t: Table, base: nat, size: nat): Table {
    var i := Find(t, base, size);
    if i == |t| then t else Release(t, i)
  }

  /** The free table neighbours of entry i start or end exactly where it does. */
  predicate Touching(t: Table, i: nat)
    requires i < |t|
  {
    && (0 < i && t[i - 1].isFree ==> t[i - 1].End() == t[i].base)
    && (i + 1 < |t| && t[i + 1].isFree ==> t[i].End() == t[i + 1].base)
  }

  // ---------------------------------------------------------------- totals

  /** Sum of the lengths of the entries whose free flag is `free`. */
  function Bytes(t: Table, free: bool): nat {
    if t == [] then 0
    else Bytes(t[..|t| - 1], free) + if t[|t| - 1].isFree == free then t[|t| - 1].len else 0
  }

  lemma {:induction false} BytesConcat(a: Table, b: Table, free: bool)
    ensures Bytes(a + b, free) == Bytes(a, free) + Bytes(b, free)
    decreases |b|
  {
    if b == [] {
      assert a + b == a;
    } else {
      assert (a + b)[..|a + b| - 1] == a + b[..|b| - 1];
      BytesConcat(a, b[..|b| - 1], free);
    }
  }

  function BytesOne(r: Region, free: bool): nat {
    if r.isFree == free then r.len else 0
  }

  lemma {:induction false} BytesAround(t: Table, i: nat, k: nat, mid: Table, free: bool)
    requires i + k <= |t|
    ensures Bytes(t, free) == Bytes(t[..i], free) + Bytes(t[i..i + k], free) + Bytes(t[i + k..], free)
    ensures Bytes(t[..i] + mid + t[i + k..], free)
         == Bytes(t, free) - Bytes(t[i..i + k], free) + Bytes(mid, free)
  {
    assert t == t[..i] + t[i..i + k] + t[i + k..];
    BytesConcat(t[..i] + t[i..i + k], t[i + k..], free);
    BytesConcat(t[..i], t[i..i + k], free);
    BytesConcat(t[..i] + mid, t[i + k..], free);
    BytesConcat(t[..i], mid, free);
  }

  lemma {:induction false} BytesSmall(r: Region, s: Region, free: bool)
    ensures Bytes([r], free) == BytesOne(r, free)
    ensures Bytes([r, s], free) == BytesOne(r, free) + BytesOne(s, free)
  {
    assert [r][..0] == [];
    assert [r, s][..1] == [r];
  }

  lemma {:induction false} WholeBytes(t: Table, i: nat, free: bool)
    requires i < |t| && t[i].isFree
    ensures Bytes(t[i := t[i].(isFree := false)], free)
         == if free then Bytes(t, free) - t[i].len else Bytes(t, free) + t[i].len
  {
    var used := t[i].(isFree := false);
    assert t[i..i + 1] == [t[i]];
    assert t[i := used] == t[..i] + [used] + t[i + 1..];
    BytesAround(t, i, 1, [used], free);
    BytesSmall(t[i], used, free);
    BytesSmall(used, used, free);
  }

  lemma {:induction false} SplitBytes(t: Table, i: nat, sz: nat, free: bool)
    requires i < |t| && t[i].isFree && sz <= t[i].len
    ensures Bytes(Split(t, i, sz), free) == if free then Bytes(t, free) - sz else Bytes(t, free) + sz
  {
    var a, b := Region(t[i].base, sz, false), Region(t[i].base + sz, t[i].len - sz, true);
    assert t[i..i + 1] == [t[i]];
    BytesAround(t, i, 1, [a, b], free);
    BytesSmall(t[i], a, free);
    BytesSmall(a, b, free);
  }

  lemma {:induction false} TakenBytes(t: Table, sz: nat, free: bool)
    requires Taken(t, sz)
    ensures Bytes(Alloc(t, sz), free) == if free then Bytes(t, free) - sz else Bytes(t, free) + sz
  {
    var i := FirstFit(t, sz);
    if t[i].len == sz { WholeBytes(t, i, free); } else { SplitBytes(t, i, sz, free); }
  }

  lemma {:induction false} AbsorbBytes(t: Table, i: nat, free: bool)
    requires i + 1 < |t| && t[i].isFree && t[i + 1].isFree
    ensures Bytes(Absorb(t, i), free) == Bytes(t, free)
  {
    var m := t[i].(len := t[i].len + t[i + 1].len);
    assert t[i..i + 2] == [t[i], t[i + 1]];
    BytesAround(t, i, 2, [m], free);
    BytesSmall(t[i], t[i + 1], free);
    BytesSmall(m, m, free);
  }

  lemma {:induction false} CoalesceBytes(t: Table, i: nat, free: bool)
    requires i < |t| && t[i].isFree
    ensures Bytes(Coalesce(t, i), free) == Bytes(t, free)
  {
    if 0 < i && t[i - 1].isFree {
      AbsorbBytes(t, i - 1, free);
      var t2 := Absorb(t, i - 1);
      if i < |t2| && t2[i].isFree { AbsorbBytes(t2, i - 1, free); }
    } else if i + 1 < |t| && t[i + 1].isFree {
      AbsorbBytes(t, i, free);
    }
  }

  lemma {:induction false} ReleaseBytes(t: Table, i: nat, free: bool)
    requires i < |t|
    ensures Bytes(Release(t, i), free)
         == Bytes(t, free) + BytesOne(t[i].(isFree := true), free) - BytesOne(t[i], free)
  {
    var r := t[i].(isFree := true);
    assert t[i..i + 1] == [t[i]];
    assert MarkFree(t, i) == t[..i] + [r] + t[i + 1..];
    BytesAround(t, i, 1, [r], free);
    BytesSmall(t[i], r, free);
    BytesSmall(r, r, free);
    CoalesceBytes(MarkFree(t, i), i, free);
  }

  /** Freeing a used block gives its bytes back; an unmatched or repeated free moves none. */
  lemma {:induction false} FreeBytes(t: Table, base: nat, size: nat)
    ensures Bytes(Free(t, base, size), true) + Bytes(Free(t, base, size), false)
         == Bytes(t, true) + Bytes(t, false)
    ensures Bytes(Free(t, base, size), true) == Bytes(t, true)
         + (var i := Find(t, base, size); if i < |t| && !t[i].isFree then size else 0)
  {
    var i := Find(t, base, size);
    if i < |t| {
      ReleaseBytes(t, i, true);
      ReleaseBytes(t, i, false);
    }
  }

  // ---------------------------------------------------------------- what every step keeps

  lemma {:induction false} SplitShape(t: Table, i: nat, sz: nat, k: nat)
    requires i < |t| && sz <= t[i].len && k <= |t|
    ensures var s := Split(t, i, sz);
            && |s| == |t| + 1
            && s[k] == if k < i then t[k]
                       else if k == i then Region(t[i].base, sz, false)
                       else if k == i + 1 then Region(t[i].base + sz, t[i].len - sz, true)
                       else t[k - 1]
  {
  }

  lemma {:induction false} SplitValid(t: Table, i: nat, sz: nat)
    requires Valid(t) && i < |t| < MAX_REGIONS
    requires 0 < sz < t[i].len && sz % PAGE_SIZE == 0
    ensures Valid(Split(t, i, sz))
  {
    var s := Split(t, i, sz);
    forall k | 0 <= k < |s|
      ensures WholePages(s[k])
    {
      SplitShape(t, i, sz, k);
    }
    forall k, l | 0 <= k < l < |s|
      ensures s[k].End() <= s[l].base
    {
      SplitShape(t, i, sz, k);
      SplitShape(t, i, sz, l);
    }
  }

  lemma {:induction false} AbsorbValid(t: Table, i: nat)
    requires Valid(t) && i + 1 < |t|
    ensures Valid(Absorb(t, i))
  {
    var s := Absorb(t, i);
    forall k | 0 <= k < |s|
      ensures s[k] == if k < i then t[k] else if k == i then t[i].(len := t[i].len + t[i + 1].len) else t[k + 1]
    {
    }
    forall k, l | 0 <= k < l < |s|
      ensures s[k].End() <= s[l].base
    {
    }
  }

  lemma {:induction false} CoalesceValid(t: Table, i: nat)
    requires Valid(t) && i < |t|
    ensures Valid(Coalesce(t, i))
  {
    if 0 < i && t[i - 1].isFree {
      AbsorbValid(t, i - 1);
      if i < |Absorb(t, i - 1)| && Absorb(t, i - 1)[i].isFree { AbsorbValid(Absorb(t, i - 1), i - 1); }
    } else if i + 1 < |t| && t[i + 1].isFree {
      AbsorbValid(t, i);
    }
  }

  /** Order, alignment, disjointness and the table bound survive a request exactly when the
      request is not for zero bytes (or takes nothing): a zero-byte request would be
      granted as an empty entry. */
  lemma {:induction false} AllocValidIff(t: Table, sz: nat)
    requires Valid(t) && sz % PAGE_SIZE == 0
    ensures Valid(Alloc(t, sz)) <==> (0 < sz || !Taken(t, sz))
  {
    if Taken(t, sz) {
      var i := FirstFit(t, sz);
      if 0 == sz {
        assert Alloc(t, sz)[i].len == 0;
      } else if sz < t[i].len {
        SplitValid(t, i, sz);
      }
    }
  }

  /** Every release keeps them, even one that coalesces across a hole. */
  lemma {:induction false} FreeValid(t: Table, base: nat, size: nat)
    requires Valid(t)
    ensures Valid(Free(t, base, size))
  {
    if Find(t, base, size) < |t| {
      CoalesceValid(MarkFree(t, Find(t, base, size)), Find(t, base, size));
    }
  }
}
