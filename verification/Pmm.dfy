/** The physical memory manager (mm/pmm.cpp): the region array, changed in place, and the
    physical memory whose blocks it zeroes through the direct map. */
module Pmm {
  import opened Words
  import opened RegionTable
  import opened RegionLaws
  import opened AllocatorRuns
  import opened MemoryMap

  datatype MapResponse = NoResponse | Response(entries: seq<Entry>)

  /** Every described byte exists in a memory of `words` words. */
  ghost predicate InMemory(t: Table, words: nat) {
    forall i :: 0 <= i < |t| ==> t[i].End() <= WORD_BYTES * words
  }

  /** Memory after a request for `sz` bytes from table `t`. */
  function AllocMemory(m: Memory, t: Table, sz: nat): Memory
    requires InMemory(t, |m|)
  {
    if Taken(t, sz) then Zeroed(m, TakenBase(t, sz) / WORD_BYTES, sz / WORD_BYTES) else m
  }

  /** The block that a granted request takes, all of it and nothing else, is cleared. */
  lemma {:induction false} AllocClears(m: Memory, t: Table, sz: nat, k: nat)
    requires Valid(t) && InMemory(t, |m|) && sz % PAGE_SIZE == 0 && k < |m|
    ensures AllocMemory(m, t, sz)[k]
         == if Taken(t, sz) && TakenBase(t, sz) <= 8 * k < TakenBase(t, sz) + sz then 0 else m[k]
  {
    if Taken(t, sz) {
      var b := TakenBase(t, sz);
      assert WholePages(t[FirstFit(t, sz)]);
      WordsOfBlock(b, sz, k);
    }
  }

  lemma {:induction false} WordsOfBlock(b: nat, sz: nat, k: nat)
    requires b % PAGE_SIZE == 0 && sz % PAGE_SIZE == 0
    ensures b / WORD_BYTES <= k < b / WORD_BYTES + sz / WORD_BYTES <==> b <= WORD_BYTES * k < b + sz
  {
    PageWords(b);
    PageWords(sz);
    WordRange(512 * (b / PAGE_SIZE), 512 * (sz / PAGE_SIZE), k);
  }

  lemma {:induction false} PageWords(x: nat)
    requires x % PAGE_SIZE == 0
    ensures x == WORD_BYTES * (512 * (x / PAGE_SIZE)) && x / WORD_BYTES == 512 * (x / PAGE_SIZE)
  {
  }

  lemma {:induction false} WordRange(first: nat, n: nat, k: nat)
    ensures first <= k < first + n <==> WORD_BYTES * first <= WORD_BYTES * k < WORD_BYTES * first + WORD_BYTES * n
  {
  }

  lemma {:induction false} FirstFitIs(t: Table, sz: nat, i: nat, k: nat)
    requires k <= i <= |t| && (forall j :: k <= j < i ==> !t[j].Fits(sz)) && (i < |t| ==> t[i].Fits(sz))
    ensures FirstFitFrom(t, sz, k) == i
    decreases i - k
  {
  }

  lemma {:induction false} FindIs(t: Table, base: nat, size: nat, i: nat, k: nat)
    requires k <= i <= |t| && (forall j :: k <= j < i ==> !Matches(t[j], base, size))
    requires i < |t| ==> Matches(t[i], base, size)
    ensures FindFrom(t, base, size, k) == i
    decreases i - k
  {
  }

  lemma {:induction false} CollectedFull(es: seq<Entry>, n: nat, k: nat)
    requires n <= k <= |es| && |Collected(es, n)| == MAX_REGIONS
    ensures Collected(es, k) == Collected(es, n)
  {
    if n < k { CollectedFull(es, n, k - 1); }
  }

  lemma {:induction false} BytesBelowEnd(t: Table, free: bool)
    requires Valid(t)
    ensures t == [] ==> Bytes(t, free) == 0
    ensures t != [] ==> Bytes(t, free) <= t[|t| - 1].End()
  {
    if t != [] { BytesBelowEnd(t[..|t| - 1], free); }
  }

  /** From index m on, every entry's base is at least that of every entry before it. */
  ghost predicate TopSorted(t: Table, m: nat) {
    forall p, q :: 0 <= p < q < |t| && m <= q ==> t[p].base <= t[q].base
  }

  ghost predicate LargestAt(t: Table, j: nat) {
    j < |t| && forall p :: 0 <= p < j ==> t[p].base <= t[j].base
  }

  lemma {:induction false} SwapKeeps(t: Table, j: nat, last: nat)
    requires j < last < |t| && TopSorted(t, last + 1) && LargestAt(t, j)
    ensures t[j].base <= t[j + 1].base ==> LargestAt(t, j + 1)
    ensures t[j].base > t[j + 1].base ==>
      var s := t[j := t[j + 1]][j + 1 := t[j]]; TopSorted(s, last + 1) && LargestAt(s, j + 1)
  {
  }

  /** Free entries in order of their bases, made of the bytes of c and as many of them. */
  ghost predicate Sorted(t: Table, c: Table) {
    && AllFree(t) && SortedBases(t) && (forall a :: Covered(t, a) <==> Covered(c, a))
    && Bytes(t, true) == Bytes(c, true)
  }

  /** No entry before i ends where the next one starts. */
  ghost predicate NoneTouching(t: Table, i: nat) {
    forall k :: 0 <= k < i && k + 1 < |t| ==> t[k].End() != t[k + 1].base
  }

  /** Loop invariant of the merge pass: entries before i do not touch their successor, and
      the table covers what it covered at the start. */
  ghost predicate Merging(t: Table, t0: Table, i: nat) {
    Sorted(t, t0) && NoneTouching(t, i) && (Ordered(t0) ==> Ordered(t))
  }

  lemma {:induction false} MergingStep(t: Table, t0: Table, i: nat)
    requires Merging(t, t0, i) && i + 1 < |t|
    ensures if t[i].End() == t[i + 1].base then Merging(Absorb(t, i), t0, i) else Merging(t, t0, i + 1)
  {
    if t[i].End() == t[i + 1].base {
      MergeStep(t, i);
      MergedNext(t, i);
    }
  }

  lemma {:induction false} MergedNext(t: Table, i: nat)
    requires i + 1 < |t| && NoneTouching(t, i)
    ensures NoneTouching(Absorb(t, i), i)
  {
    var s := Absorb(t, i);
    forall k | 0 <= k < i && k + 1 < |s|
      ensures s[k].End() != s[k + 1].base
    {
      assert s[k] == t[k] && s[k + 1].base == t[k + 1].base;
    }
  }

  class PhysicalMemoryManager {
    const regions: array<Region>
    const memory: array<Word>
    var regionCount: nat
    var hhdm: Word

    ghost predicate Shape()
      reads this
    {
      regions.Length == MAX_REGIONS && regionCount <= MAX_REGIONS
    }

    function Table(): Table
      reads this, regions
      requires Shape()
    {
      regions[..regionCount]
    }

    /** The state between calls: a valid table that stays inside physical memory. */
    ghost predicate Ready()
      reads this, regions
    {
      Shape() && Valid(Table()) && InMemory(Table(), memory.Length)
    }

    constructor (memory: array<Word>)
      ensures this.memory == memory && fresh(regions) && Shape() && Table() == []
    {
      this.memory := memory;
      regions := new Region[MAX_REGIONS](_ => Region(0, 0, false));
      regionCount := 0;
      hhdm := 0;
    }

    // -------------------------------------------------------------- boot

    method CollectEntries(es: seq<Entry>)
      requires Shape() && regionCount == 0
      modifies `regionCount, regions
      ensures Shape() && Table() == Collected(es, |es|)
    {
      var i := 0;
      while i < |es| && regionCount < MAX_REGIONS
        invariant i <= |es| && Shape() && Table() == Collected(es, i)
      {
        var entry := es[i];
        if entry.kind == USABLE {
          var base := StartOf(entry);
          var end := EndOf(entry);
          if end > base {
            regions[regionCount] := Region(base, end - base, true);
            regionCount := regionCount + 1;
          }
        }
        i := i + 1;
      }
      if i < |es| { CollectedFull(es, i, |es|); }
    }

    method SwapNext(j: nat)
      requires Shape() && j + 1 < regionCount
      modifies regions
      ensures Table() == old(Table())[j := old(regions[j + 1])][j + 1 := old(regions[j])]
      ensures multiset(Table()) == multiset(old(Table()))
    {
      ghost var s := Table();
      var temp := regions[j];
      regions[j] := regions[j + 1];
      regions[j + 1] := temp;
      assert Table() == s[j := s[j + 1]][j + 1 := s[j]];
    }

    /** One bubble pass: the largest base of the first `last + 1` entries moves to `last`. */
    method BubblePass(last: nat)
      requires Shape() && last < regionCount && TopSorted(Table(), last + 1)
      modifies regions
      ensures multiset(Table()) == multiset(old(Table()))
      ensures TopSorted(Table(), last)
    {
      var j := 0;
      while j < last
        invariant 0 <= j <= last
        invariant multiset(Table()) == multiset(old(Table()))
        invariant TopSorted(Table(), last + 1) && LargestAt(Table(), j)
      {
        SwapKeeps(Table(), j, last);
        if regions[j].base > regions[j + 1].base {
          SwapNext(j);
        }
        j := j + 1;
      }
    }

    method SortByBase()
      requires Shape() && 0 < regionCount
      modifies regions
      ensures multiset(Table()) == multiset(old(Table()))
      ensures TopSorted(Table(), 0)
    {
      var i := 0;
      while i < regionCount - 1
        invariant 0 <= i < regionCount
        invariant multiset(Table()) == multiset(old(Table()))
        invariant TopSorted(Table(), regionCount - i)
      {
        BubblePass(regionCount - i - 1);
        i := i + 1;
      }
    }

    /** Moves the entries after `from` one slot down and drops the last. */
    method ShiftLeft(from: nat)
      requires Shape() && from < regionCount
      modifies `regionCount, regions
      ensures Shape() && Table() == old(Table()[..from] + Table()[from + 1..])
    {
      var j := from;
      while j < regionCount - 1
        invariant regionCount == old(regionCount) && from <= j <= regionCount - 1
        invariant forall k :: 0 <= k < regionCount ==>
                    regions[k] == if from <= k < j then old(regions[k + 1]) else old(regions[k])
      {
        regions[j] := regions[j + 1];
        j := j + 1;
      }
      regionCount := regionCount - 1;
    }

    /** Entry i swallows entry i+1 in place. */
    method AbsorbNext(i: nat)
      requires Shape() && i + 1 < regionCount
      modifies `regionCount, regions
      ensures Shape() && Table() == Absorb(old(Table()), i)
    {
      ghost var t := Table();
      regions[i] := regions[i].(len := regions[i].len + regions[i + 1].len);
      ShiftLeft(i + 1);
      assert Table() == Absorb(t, i);
    }

    /** One iteration of the merge pass at index i. After a merge the index steps back and on
        again, through 2^64 - 1 when it is 0. */
    method MergeAt(i: nat, ghost t0: Table) returns (next: nat)
      requires Shape() && i + 1 < regionCount && Merging(Table(), t0, i)
      modifies `regionCount, regions
      ensures Shape() && Merging(Table(), t0, next) && next < regionCount
      ensures regionCount - next < old(regionCount) - i
    {
      MergingStep(Table(), t0, i);
      var adjacent := regions[i].base + regions[i].len == regions[i + 1].base;
      if adjacent { AbsorbNext(i); }
      next := NextIndex(i, adjacent);
    }

    method MergeAdjacent()
      requires Shape() && 0 < regionCount && SortedBases(Table()) && AllFree(Table())
      modifies `regionCount, regions
      ensures Shape() && 0 < regionCount && Merging(Table(), old(Table()), regionCount - 1)
    {
      ghost var t0 := Table();
      var i := 0;
      while i < regionCount - 1
        invariant Shape() && 0 <= i < regionCount && Merging(Table(), t0, i)
        decreases regionCount - i
      {
        i := MergeAt(i, t0);
      }
    }

    /** Boot, with at least one accepted entry: the table holds the collected bytes in order,
        without touching neighbours; for a map of disjoint entries it is their canonical
        description. */
    method Init(response: MapResponse, offset: Word)
      requires Shape() && regionCount == 0
      requires response.Response? ==> Collected(response.entries, |response.entries|) != []
      modifies this, regions
      ensures Shape()
      ensures response.NoResponse? ==> Table() == [] && hhdm == old(hhdm)
      ensures response.Response? ==>
        var c := Collected(response.entries, |response.entries|);
        && hhdm == offset && Sorted(Table(), c) && NoneTouching(Table(), |Table()|)
        && (DisjointMap(response.entries) ==> Describes(Table(), c))
    {
      if response.NoResponse? { return; }
      hhdm := offset;
      var es := response.entries;
      ghost var c := Collected(es, |es|);
      CollectEntries(es);
      CollectedFree(es, |es|);
      SortByBase();
      ghost var t := Table();
      PermutedSorted(t, c);
      MergeAdjacent();
      MergedSorted(Table(), t, c);
      if DisjointMap(es) { BootDescribes(es, t, Table()); }
    }

    // -------------------------------------------------------------- requests

    /** Moves the entries from `at` on one slot up. */
    method ShiftRight(at: nat)
      requires Shape() && at <= regionCount < MAX_REGIONS
      modifies regions
      ensures regions[..at] == old(regions[..at])
      ensures regions[at + 1..regionCount + 1] == old(regions[at..regionCount])
    {
      var j := regionCount;
      while j > at
        invariant at <= j <= regionCount
        invariant forall k :: 0 <= k <= regionCount && k != j ==>
                    regions[k] == if j < k then old(regions[k - 1]) else old(regions[k])
      {
        regions[j] := regions[j - 1];
        j := j - 1;
      }
    }

    /** Cuts the front `sz` bytes of entry i off as a used entry. */
    method SplitEntry(i: nat, sz: nat)
      requires Shape() && i < regionCount < MAX_REGIONS && sz <= regions[i].len
      modifies `regionCount, regions
      ensures Shape() && Table() == Split(old(Table()), i, sz)
    {
      ghost var t := Table();
      ShiftRight(i + 1);
      assert forall k :: i + 1 <= k < |t| ==> regions[i + 2..regionCount + 1][k - i - 1] == t[k];
      assert forall k :: 0 <= k <= i ==> regions[..i + 1][k] == t[k];
      regions[i + 1] := Region(regions[i].base + sz, regions[i].len - sz, true);
      regions[i] := Region(regions[i].base, sz, false);
      regionCount := regionCount + 1;
      forall k | 0 <= k < regionCount
        ensures regions[k] == Split(t, i, sz)[k]
      {
        SplitShape(t, i, sz, k);
      }
      assert Table() == Split(t, i, sz);
    }

    /** Clears the block through the direct map, word by word. */
    method ClearBlock(base: Word, sz: Word)
      requires base % WORD_BYTES == 0 && base + sz <= WORD_BYTES * memory.Length && base + sz < TWO64
      modifies memory
      ensures memory[..] == Zeroed(old(memory[..]), base / WORD_BYTES, sz / WORD_BYTES)
    {
      var ptr := ToVirt(base, hhdm);
      var j := 0;
      while j < sz / WORD_BYTES
        invariant 0 <= j <= sz / WORD_BYTES
        invariant memory[..] == Zeroed(old(memory[..]), base / WORD_BYTES, j)
      {
        DirectMapWord(base, hhdm, j);
        memory[ToPhys((ptr + WORD_BYTES * j) % TWO64, hhdm) / WORD_BYTES] := 0;
        j := j + 1;
      }
    }

    /** The search loop of a request: the index of the first fit. */
    method FindFit(sz: nat) returns (i: nat)
      requires Shape()
      ensures i == FirstFit(Table(), sz)
    {
      i := 0;
      while i < regionCount
        invariant 0 <= i <= regionCount
        invariant forall k :: 0 <= k < i ==> !Table()[k].Fits(sz)
      {
        if regions[i].isFree && regions[i].len >= sz {
          break;
        }
        i := i + 1;
      }
      FirstFitIs(Table(), sz, i, 0);
    }

    /** The fit is entry i: take it whole, or split it if the table has room. */
    method TakeEntry(i: nat, sz: nat) returns (granted: bool)
      requires Shape() && i < regionCount && i == FirstFit(Table(), sz)
      modifies `regionCount, regions
      ensures Shape() && Table() == Alloc(old(Table()), sz)
      ensures granted == Taken(old(Table()), sz)
    {
      ghost var t := Table();
      if regions[i].len == sz {
        regions[i] := regions[i].(isFree := false);
        assert Table() == t[i := t[i].(isFree := false)];
      } else {
        if regionCount >= MAX_REGIONS { return false; }
        SplitEntry(i, sz);
      }
      return true;
    }

    /** A request for `sz` bytes. */
    method Request(sz: Word) returns (addr: Word)
      requires Ready()
      modifies `regionCount, regions, memory
      ensures Shape() && addr == AllocAddress(old(Table()), sz)
      ensures Table() == Alloc(old(Table()), sz)
      ensures memory[..] == AllocMemory(old(memory[..]), old(Table()), sz)
    {
      var i := FindFit(sz);
      if i == regionCount { return 0; }
      var base := regions[i].base;
      BlockInMemory(Table(), i, sz, memory.Length);
      var granted := TakeEntry(i, sz);
      if !granted { return 0; }
      ClearBlock(base, sz);
      return base;
    }

    /** `alloc_pages`: the returned address, the new table and the new memory are those of a
        request for `count` pages; exactly the words of the block taken are zero now. The table
        stays valid unless the request wraps to zero bytes. */
    method AllocPages(count: Word) returns (addr: Word)
      requires Ready()
      modifies `regionCount, regions, memory
      ensures Shape() && addr == AllocAddress(old(Table()), PageBytes(count))
      ensures Table() == Alloc(old(Table()), PageBytes(count))
      ensures memory[..] == AllocMemory(old(memory[..]), old(Table()), PageBytes(count))
      ensures PageBytes(count) != 0 ==> Ready()
      ensures var t, sz := old(Table()), PageBytes(count);
              forall k :: 0 <= k < memory.Length ==>
                memory[k] == if Taken(t, sz) && TakenBase(t, sz) <= 8 * k < TakenBase(t, sz) + sz then 0
                             else old(memory[k])
    {
      ghost var m, t := memory[..], Table();
      AllocReady(Table(), PageBytes(count), memory.Length);
      addr := Request(PageBytes(count));
      forall k | 0 <= k < memory.Length
        ensures memory[k] == if Taken(t, PageBytes(count)) && TakenBase(t, PageBytes(count)) <= 8 * k
                                < TakenBase(t, PageBytes(count)) + PageBytes(count) then 0 else m[k]
      {
        AllocClears(m, t, PageBytes(count), k);
        assert memory[k] == memory[..][k];
      }
    }

    // -------------------------------------------------------------- releases

    method ReleaseEntry(at: nat)
      requires Shape() && at < regionCount
      modifies `regionCount, regions
      ensures Shape() && Table() == Release(old(Table()), at)
    {
      var i := at;
      ghost var t := Table();
      regions[i] := regions[i].(isFree := true);
      assert Table() == MarkFree(t, i);
      if i > 0 && regions[i - 1].isFree {
        AbsorbNext(i - 1);
        i := i - 1;
      }
      if i < regionCount - 1 && regions[i + 1].isFree {
        AbsorbNext(i);
      }
    }

    /** `free_pages`: an exact match is released and coalesced; anything else changes nothing. */
    method FreePages(base: Word, count: Word)
      requires Ready()
      modifies `regionCount, regions
      ensures Ready() && Table() == Free(old(Table()), base, PageBytes(count))
    {
      var size := PageBytes(count);
      ghost var t := Table();
      FreeValid(t, base, size);
      FreeInMemory(t, base, size, memory.Length);
      var i := 0;
      while i < regionCount
        invariant 0 <= i <= regionCount
        invariant forall k :: 0 <= k < i ==> !Matches(t[k], base, size)
      {
        if regions[i].base == base && regions[i].len == size {
          FindIs(t, base, size, i, 0);
          ReleaseEntry(i);
          return;
        }
        i := i + 1;
      }
      FindIs(t, base, size, |t|, 0);
    }

    /** `get_free_memory`: the free bytes of the table; the 64-bit sum does not wrap. */
    method GetFreeMemory() returns (total: nat)
      requires Ready()
      ensures total == Bytes(Table(), true) && total < TWO64
      ensures total == |FreeSet(Table())|
    {
      total := 0;
      var i := 0;
      while i < regionCount
        invariant 0 <= i <= regionCount && total == Bytes(regions[..i], true)
      {
        assert regions[..i + 1][..i] == regions[..i];
        if regions[i].isFree { total := total + regions[i].len; }
        i := i + 1;
      }
      BytesBelowEnd(Table(), true);
      FreeMemoryIsCount(Table());
    }
  }

  lemma {:induction false} BlockInMemory(t: Table, i: nat, sz: nat, words: nat)
    requires Valid(t) && InMemory(t, words) && i < |t| && t[i].Fits(sz)
    ensures t[i].base % WORD_BYTES == 0 && t[i].base + sz <= WORD_BYTES * words && t[i].base + sz < TWO64
  {
    assert WholePages(t[i]);
    assert t[i].base == WORD_BYTES * (512 * (t[i].base / PAGE_SIZE));
  }

  /** The 64-bit index of the merge pass: stepped back after a merge, then stepped on. */
  method NextIndex(i: nat, merged: bool) returns (next: nat)
    requires i + 1 < TWO64
    ensures next == if merged then i else i + 1
  {
    next := i;
    if merged { next := (next - 1) % TWO64; }
    next := (next + 1) % TWO64;
  }

  lemma {:induction false} PermutedSorted(t: Table, c: Table)
    requires multiset(t) == multiset(c) && TopSorted(t, 0) && AllFree(c)
    ensures Sorted(t, c)
  {
    PermutedFree(t, c);
    PermutedBytes(t, c, true);
    forall a
      ensures Covered(t, a) <==> Covered(c, a)
    {
      if Covered(t, a) { PermutedCover(t, c, a); }
      if Covered(c, a) { PermutedCover(c, t, a); }
    }
  }

  lemma {:induction false} MergedSorted(t: Table, t0: Table, c: Table)
    requires t != [] && Merging(t, t0, |t| - 1) && Sorted(t0, c)
    ensures Sorted(t, c) && NoneTouching(t, |t|)
  {
  }

  lemma {:induction false} BootDescribes(es: seq<Entry>, t0: Table, t: Table)
    requires DisjointMap(es) && multiset(t0) == multiset(Collected(es, |es|)) && TopSorted(t0, 0)
    requires t != [] && |t| <= MAX_REGIONS && Merging(t, t0, |t| - 1)
    ensures Describes(t, Collected(es, |es|))
  {
    var c := Collected(es, |es|);
    CollectedScattered(es, |es|);
    SortedScattered(t0, c);
    PermutedSorted(t0, c);
    MergedSorted(t, t0, c);
    SeparatedCanonical(t);
  }

  lemma {:induction false} SeparatedCanonical(t: Table)
    requires Ordered(t) && AllFree(t)
    requires NoneTouching(t, |t|)
    ensures Canonical(t)
  {
    forall k, l | 0 <= k < l < |t|
      ensures t[k].End() < t[l].base
    {
      assert t[k].End() != t[k + 1].base;
      assert k + 1 == l || t[k + 1].End() <= t[l].base;
    }
  }

  lemma {:induction false} AllocReady(t: Table, sz: nat, words: nat)
    requires Valid(t) && InMemory(t, words) && sz % PAGE_SIZE == 0
    ensures InMemory(Alloc(t, sz), words)
    ensures 0 < sz ==> Valid(Alloc(t, sz))
  {
    AllocInMemory(t, sz, words);
    AllocValidIff(t, sz);
  }

  lemma {:induction false} AllocInMemory(t: Table, sz: nat, words: nat)
    requires InMemory(t, words)
    ensures InMemory(Alloc(t, sz), words)
  {
    if Taken(t, sz) {
      var i, s := FirstFit(t, sz), Alloc(t, sz);
      forall k | 0 <= k < |s|
        ensures s[k].End() <= WORD_BYTES * words
      {
        if t[i].len != sz { SplitShape(t, i, sz, k); }
      }
    }
  }

  lemma {:induction false} AbsorbInMemory(t: Table, i: nat, words: nat)
    requires Valid(t) && InMemory(t, words) && i + 1 < |t|
    ensures InMemory(Absorb(t, i), words)
  {
    assert t[i].len + t[i + 1].len + t[i].base <= t[i + 1].End();
  }

  lemma {:induction false} CoalesceInMemory(t: Table, i: nat, words: nat)
    requires Valid(t) && InMemory(t, words) && i < |t|
    ensures InMemory(Coalesce(t, i), words)
  {
    if 0 < i && t[i - 1].isFree {
      AbsorbInMemory(t, i - 1, words);
      AbsorbValid(t, i - 1);
      var t2 := Absorb(t, i - 1);
      if i < |t2| && t2[i].isFree { AbsorbInMemory(t2, i - 1, words); }
    } else if i + 1 < |t| && t[i + 1].isFree {
      AbsorbInMemory(t, i, words);
    }
  }

  lemma {:induction false} FreeInMemory(t: Table, base: nat, size: nat, words: nat)
    requires Valid(t) && InMemory(t, words)
    ensures InMemory(Free(t, base, size), words)
  {
    var i := Find(t, base, size);
    if i < |t| { CoalesceInMemory(MarkFree(t, i), i, words); }
  }
}
