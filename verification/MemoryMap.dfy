/** The boot memory map and what the region table must be after `PMM::init`: the canonical
    list of free runs that covers the whole pages of the usable entries. */
module MemoryMap {
  import opened Words
  import opened RegionTable
  import opened RegionLaws
  import opened AllocatorRuns

  const USABLE: nat := 0

  datatype Entry = Entry(base: Word, length: Word, kind: nat)

  function AlignDown(a: Word): Word { a - a % PAGE_SIZE }

  /** Page-aligned start and end, with the wrap-around of 64-bit sums. */
  function StartOf(e: Entry): Word { AlignDown((e.base + PAGE_SIZE - 1) % TWO64) }

  function EndOf(e: Entry): Word { AlignDown((e.base + e.length) % TWO64) }

  predicate Accepted(e: Entry) { e.kind == USABLE && EndOf(e) > StartOf(e) }

  function RegionOf(e: Entry): Region
    requires Accepted(e)
  {
    Region(StartOf(e), EndOf(e) - StartOf(e), true)
  }

  /** The accepted entries of the first n, in order, as far as the table has room. */
  function Collected(es: seq<Entry>, n: nat): (t: Table)
    requires n <= |es|
    ensures |t| <= MAX_REGIONS
  {
    if n == 0 then []
    else
      var t := Collected(es, n - 1);
      if |t| < MAX_REGIONS && Accepted(es[n - 1]) then t + [RegionOf(es[n - 1])] else t
  }

  /** Neither the rounding up of the base nor the end of the entry passes 2^64. */
  predicate InRange(e: Entry) {
    e.base + PAGE_SIZE - 1 < TWO64 && e.base + e.length < TWO64
  }

  /** Byte a lies in a page that is wholly inside entry e, of the usable kind 0. */
  predicate InWholePage(e: Entry, a: int) {
    e.kind == 0 && e.base <= a - a % 0x1000 && a - a % 0x1000 + 0x1000 <= e.base + e.length
  }

  /** Distinct usable entries share no byte, as the boot protocol promises. */
  ghost predicate DisjointMap(es: seq<Entry>) {
    && (forall i :: 0 <= i < |es| && es[i].kind == USABLE ==> InRange(es[i]))
    && (forall i, j :: 0 <= i < j < |es| && es[i].kind == USABLE && es[j].kind == USABLE ==>
          es[i].base + es[i].length <= es[j].base || es[j].base + es[j].length <= es[i].base)
  }

  lemma {:induction false} AlignedBounds(x: int)
    ensures x - PAGE_SIZE < x - x % PAGE_SIZE <= x && (x - x % PAGE_SIZE) % PAGE_SIZE == 0
  {
  }

  lemma {:induction false} NextPage(x: int, y: int)
    requires x % PAGE_SIZE == 0 && y % PAGE_SIZE == 0 && x < y
    ensures x + PAGE_SIZE <= y && (y - x) % PAGE_SIZE == 0
  {
  }

  lemma {:induction false} AcceptedShape(e: Entry)
    requires InRange(e)
    ensures StartOf(e) % PAGE_SIZE == 0 && EndOf(e) % PAGE_SIZE == 0
    ensures e.base <= StartOf(e) < e.base + PAGE_SIZE
    ensures EndOf(e) <= e.base + e.length < EndOf(e) + PAGE_SIZE
    ensures Accepted(e) ==> WholePages(RegionOf(e))
  {
    assert (e.base + PAGE_SIZE - 1) % TWO64 == e.base + PAGE_SIZE - 1;
    assert (e.base + e.length) % TWO64 == e.base + e.length;
    AlignedBounds(e.base + PAGE_SIZE - 1);
    AlignedBounds(e.base + e.length);
    if Accepted(e) { NextPage(StartOf(e), EndOf(e)); }
  }

  /** The region made of an entry covers exactly the whole pages inside the entry. */
  lemma {:induction false} AcceptedPages(e: Entry, a: int)
    requires InRange(e)
    ensures Accepted(e) && RegionOf(e).Covers(a) <==> InWholePage(e, a)
  {
    AcceptedShape(e);
    AlignedBounds(a);
    var p, s, d := a - a % PAGE_SIZE, StartOf(e), EndOf(e);
    if s < p { NextPage(s, p); }
    if p < s { NextPage(p, s); }
    if p < d { NextPage(p, d); }
    if d < p { NextPage(d, p); }
    if InWholePage(e, a) {
      assert s <= p && p + PAGE_SIZE <= d;
    }
  }

  /** The wrapped sums give the right pages exactly when neither sum wraps, or both do and what
      is left after the wrap is less than a page (so that nothing is accepted). */
  lemma {:induction false} AcceptedPagesIff(e: Entry)
    requires e.kind == USABLE
    ensures (forall a: nat :: Accepted(e) && RegionOf(e).Covers(a) <==> InWholePage(e, a)) <==>
              InRange(e) || (e.base + PAGE_SIZE - 1 >= TWO64 && TWO64 <= e.base + e.length < TWO64 + PAGE_SIZE)
  {
    if InRange(e) {
      forall a: nat
        ensures Accepted(e) && RegionOf(e).Covers(a) <==> InWholePage(e, a)
      {
        AcceptedPages(e, a);
      }
    } else if e.base + PAGE_SIZE - 1 >= TWO64 {
      BaseWraps(e);
    } else {
      EndWraps(e);
    }
  }

  lemma {:induction false} BaseWraps(e: Entry)
    requires e.kind == USABLE && e.base + PAGE_SIZE - 1 >= TWO64
    ensures TWO64 <= e.base + e.length < TWO64 + PAGE_SIZE ==>
              forall a: nat :: Accepted(e) && RegionOf(e).Covers(a) <==> InWholePage(e, a)
    ensures !(TWO64 <= e.base + e.length < TWO64 + PAGE_SIZE) ==>
              Accepted(e) && RegionOf(e).Covers(0) && !InWholePage(e, 0)
  {
    assert (e.base + PAGE_SIZE - 1) % TWO64 == e.base + PAGE_SIZE - 1 - TWO64;
    assert StartOf(e) == 0;
    var s := e.base + e.length;
    assert s % TWO64 == if s < TWO64 then s else s - TWO64;
    AlignedBounds(s % TWO64);
    forall a: nat | TWO64 <= s < TWO64 + PAGE_SIZE
      ensures !InWholePage(e, a)
    {
      AlignedBounds(a);
      var p := a - a % PAGE_SIZE;
      if e.base <= p { PageBelowTop(p, e.base); }
    }
  }

  /** The first page boundary from the last page below 2^64 on is 2^64. */
  lemma {:induction false} PageBelowTop(p: int, base: int)
    requires p % PAGE_SIZE == 0 && base <= p && TWO64 - PAGE_SIZE < base
    ensures TWO64 <= p
  {
    assert TWO64 % PAGE_SIZE == 0;
    if p < TWO64 { NextPage(p, TWO64); }
  }

  lemma {:induction false} EndWraps(e: Entry)
    requires e.kind == USABLE && e.base + PAGE_SIZE - 1 < TWO64 <= e.base + e.length
    ensures !Accepted(e) && InWholePage(e, StartOf(e))
  {
    assert (e.base + PAGE_SIZE - 1) % TWO64 == e.base + PAGE_SIZE - 1;
    AlignedBounds(e.base + PAGE_SIZE - 1);
    var s := e.base + e.length - TWO64;
    assert (e.base + e.length) % TWO64 == s;
    AlignedBounds(s);
    assert TWO64 % PAGE_SIZE == 0;
    NextPage(StartOf(e), TWO64);
  }

  ghost predicate AllFree(t: Table) {
    forall i :: 0 <= i < |t| ==> WholePages(t[i]) && t[i].isFree
  }

  /** Entries in any order, none overlapping another. */
  ghost predicate Scattered(t: Table) {
    && AllFree(t)
    && (forall i, j :: 0 <= i < j < |t| ==> t[i].End() <= t[j].base || t[j].End() <= t[i].base)
  }

  lemma {:induction false} CollectedSource(es: seq<Entry>, n: nat, i: nat) returns (k: nat)
    requires n <= |es| && i < |Collected(es, n)|
    ensures i <= k < n && Accepted(es[k]) && Collected(es, n)[i] == RegionOf(es[k])
    ensures i < |Collected(es, k + 1)| && |Collected(es, k)| == i
  {
    var t := Collected(es, n - 1);
    if i < |t| {
      k := CollectedSource(es, n - 1, i);
    } else {
      k := n - 1;
      CollectedShort(es, n - 1);
    }
  }

  lemma {:induction false} CollectedShort(es: seq<Entry>, n: nat)
    requires n <= |es|
    ensures |Collected(es, n)| <= n
  {
    if 0 < n { CollectedShort(es, n - 1); }
  }

  /** An accepted entry always gives whole pages, even where its sums wrap. */
  lemma {:induction false} AcceptedWhole(e: Entry)
    requires Accepted(e)
    ensures WholePages(RegionOf(e))
  {
    AlignedBounds((e.base + PAGE_SIZE - 1) % TWO64);
    AlignedBounds((e.base + e.length) % TWO64);
    NextPage(StartOf(e), EndOf(e));
  }

  lemma {:induction false} CollectedFree(es: seq<Entry>, n: nat)
    requires n <= |es|
    ensures AllFree(Collected(es, n))
  {
    if 0 < n {
      CollectedFree(es, n - 1);
      if Accepted(es[n - 1]) { AcceptedWhole(es[n - 1]); }
    }
  }

  lemma {:induction false} CollectedScattered(es: seq<Entry>, n: nat)
    requires n <= |es| && DisjointMap(es)
    ensures Scattered(Collected(es, n))
  {
    if 0 < n {
      CollectedScattered(es, n - 1);
      var t := Collected(es, n - 1);
      if |t| < MAX_REGIONS && Accepted(es[n - 1]) {
        AcceptedShape(es[n - 1]);
        forall i | 0 <= i < |t|
          ensures t[i].End() <= StartOf(es[n - 1]) || EndOf(es[n - 1]) <= t[i].base
        {
          var k := CollectedSource(es, n - 1, i);
          AcceptedShape(es[k]);
        }
      }
    }
  }

  function AcceptedCount(es: seq<Entry>): nat {
    if es == [] then 0 else AcceptedCount(es[1..]) + if Accepted(es[0]) then 1 else 0
  }

  lemma {:induction false} AcceptedCountConcat(es: seq<Entry>, fs: seq<Entry>)
    ensures AcceptedCount(es + fs) == AcceptedCount(es) + AcceptedCount(fs)
  {
    if es == [] {
      assert es + fs == fs;
    } else {
      assert (es + fs)[1..] == es[1..] + fs;
      AcceptedCountConcat(es[1..], fs);
    }
  }

  lemma {:induction false} CollectedAll(es: seq<Entry>, n: nat)
    requires n <= |es| && AcceptedCount(es[..n]) <= MAX_REGIONS
    ensures |Collected(es, n)| == AcceptedCount(es[..n])
  {
    if 0 < n {
      assert es[..n] == es[..n - 1] + [es[n - 1]];
      AcceptedCountConcat(es[..n - 1], [es[n - 1]]);
      CollectedAll(es, n - 1);
    }
  }

  /** When no accepted entry is dropped, the collected regions cover the whole pages. */
  lemma {:induction false} CollectedCovers(es: seq<Entry>, n: nat, a: int)
    requires n <= |es| && DisjointMap(es) && AcceptedCount(es[..n]) <= MAX_REGIONS
    ensures Covered(Collected(es, n), a) <==> exists k :: 0 <= k < n && InWholePage(es[k], a)
  {
    if 0 < n {
      var t, e := Collected(es, n - 1), es[n - 1];
      assert es[..n] == es[..n - 1] + [e];
      AcceptedCountConcat(es[..n - 1], [e]);
      CollectedAll(es, n - 1);
      CollectedCovers(es, n - 1, a);
      if e.kind == USABLE { AcceptedPages(e, a); }
      var t' := Collected(es, n);
      forall i | 0 <= i < |t| && t[i].Covers(a)
        ensures Covered(t', a)
      {
        assert t'[i].Covers(a);
      }
      if Accepted(e) && RegionOf(e).Covers(a) {
        assert t'[|t|].Covers(a);
      }
    }
  }

  /** The table that boot must leave: canonical, covering exactly the bytes of `c`. */
  ghost predicate Describes(t: Table, c: Table) {
    && Canonical(t) && Valid(t)
    && forall a :: Covered(t, a) <==> Covered(c, a)
  }

  lemma {:induction false} SameElements<T>(s: seq<T>, t: seq<T>)
    requires multiset(s) == multiset(t)
    ensures forall x :: x in s <==> x in t
  {
    forall x
      ensures x in s <==> x in t
    {
      assert x in multiset(s) <==> x in multiset(t);
    }
  }

  lemma {:induction false} RemoveOne(es: seq<Entry>, fs: seq<Entry>, k: nat)
    requires multiset(es) == multiset(fs) && es != [] && k < |fs| && fs[k] == es[0]
    ensures multiset(es[1..]) == multiset(fs[..k] + fs[k + 1..])
  {
    assert es == [es[0]] + es[1..];
    assert fs == fs[..k] + [fs[k]] + fs[k + 1..];
    assert multiset(es[1..]) == multiset(es) - multiset{es[0]};
    assert multiset(fs) == multiset(fs[..k]) + multiset{fs[k]} + multiset(fs[k + 1..]);
  }

  lemma {:induction false} PermutedCount(es: seq<Entry>, fs: seq<Entry>)
    requires multiset(es) == multiset(fs)
    ensures AcceptedCount(es) == AcceptedCount(fs)
  {
    if es == [] {
      assert |multiset(fs)| == 0;
    } else {
      assert es[0] in multiset(fs);
      var k :| 0 <= k < |fs| && fs[k] == es[0];
      RemoveOne(es, fs, k);
      PermutedCount(es[1..], fs[..k] + fs[k + 1..]);
      assert fs == fs[..k] + ([fs[k]] + fs[k + 1..]);
      AcceptedCountConcat(fs[..k], fs[k + 1..]);
      AcceptedCountConcat(fs[..k], [fs[k]] + fs[k + 1..]);
      AcceptedCountConcat([fs[k]], fs[k + 1..]);
    }
  }

  /** A map that lists an entry twice lists it at two positions. */
  lemma {:induction false} TwoPositions<T>(s: seq<T>, x: T) returns (k: nat, l: nat)
    requires multiset(s)[x] >= 2
    ensures k < l < |s| && s[k] == x && s[l] == x
  {
    assert x in multiset(s);
    k :| 0 <= k < |s| && s[k] == x;
    assert s == s[..k] + [x] + s[k + 1..];
    assert multiset(s) == multiset(s[..k]) + multiset{x} + multiset(s[k + 1..]);
    if x in multiset(s[..k]) {
      l := k;
      k :| 0 <= k < |s[..l]| && s[..l][k] == x;
    } else {
      assert x in multiset(s[k + 1..]);
      l :| 0 <= l < |s[k + 1..]| && s[k + 1..][l] == x;
      l := l + k + 1;
    }
  }

  lemma {:induction false} TwiceIn<T>(t: seq<T>, i: nat, j: nat)
    requires i < j < |t| && t[i] == t[j]
    ensures multiset(t)[t[i]] >= 2
  {
    assert t == t[..j] + [t[j]] + t[j + 1..];
    assert t[i] in t[..j];
    assert multiset(t) == multiset(t[..j]) + multiset{t[j]} + multiset(t[j + 1..]);
  }

  lemma {:induction false} PermutedDisjoint(es: seq<Entry>, fs: seq<Entry>)
    requires multiset(es) == multiset(fs) && DisjointMap(es)
    ensures DisjointMap(fs)
  {
    SameElements(es, fs);
    forall i | 0 <= i < |fs| && fs[i].kind == USABLE
      ensures InRange(fs[i])
    {
      assert fs[i] in es;
    }
    forall i, j | 0 <= i < j < |fs| && fs[i].kind == USABLE && fs[j].kind == USABLE
      ensures fs[i].base + fs[i].length <= fs[j].base || fs[j].base + fs[j].length <= fs[i].base
    {
      if fs[i] == fs[j] {
        TwiceIn(fs, i, j);
        var k, l := TwoPositions(es, fs[i]);
      } else {
        assert fs[i] in es && fs[j] in es;
      }
    }
  }

  lemma {:induction false} SamePages(es: seq<Entry>, fs: seq<Entry>, a: int)
    requires multiset(es) == multiset(fs)
    requires exists k :: 0 <= k < |es| && InWholePage(es[k], a)
    ensures exists k :: 0 <= k < |fs| && InWholePage(fs[k], a)
  {
    SameElements(es, fs);
    var k :| 0 <= k < |es| && InWholePage(es[k], a);
    assert es[k] in fs;
  }

  /** The boot table covers exactly the whole pages of single usable entries. */
  lemma {:induction false} TableCoversMap(es: seq<Entry>, t: Table, a: int)
    requires DisjointMap(es) && AcceptedCount(es) <= MAX_REGIONS && Describes(t, Collected(es, |es|))
    ensures Covered(t, a) <==> exists k :: 0 <= k < |es| && InWholePage(es[k], a)
  {
    assert es[..|es|] == es;
    CollectedCovers(es, |es|, a);
  }

  /** Any permutation of a memory map whose entries fit in the table leads to the identical
      table. */
  lemma {:induction false} OrderOfMapIsIrrelevant(es: seq<Entry>, fs: seq<Entry>, s: Table, t: Table)
    requires multiset(es) == multiset(fs) && DisjointMap(es) && AcceptedCount(es) <= MAX_REGIONS
    requires Describes(s, Collected(es, |es|)) && Describes(t, Collected(fs, |fs|))
    ensures s == t
  {
    PermutedCount(es, fs);
    PermutedDisjoint(es, fs);
    forall a
      ensures Covered(s, a) <==> Covered(t, a)
    {
      TableCoversMap(es, s, a);
      TableCoversMap(fs, t, a);
      if Covered(s, a) { SamePages(es, fs, a); }
      if Covered(t, a) { SamePages(fs, es, a); }
    }
    CanonicalUnique(s, t);
  }

  // ---------------------------------------------------------------- sorting and merging

  ghost predicate SortedBases(t: Table) {
    forall i, j :: 0 <= i < j < |t| ==> t[i].base <= t[j].base
  }

  /** A permutation covers the same bytes, as many of them. */
  lemma {:induction false} PermutedCover(t: Table, c: Table, a: int)
    requires multiset(t) == multiset(c) && Covered(t, a)
    ensures Covered(c, a)
  {
    var i :| 0 <= i < |t| && t[i].Covers(a);
    assert t[i] in multiset(c);
  }

  lemma {:induction false} WithoutOne<T>(s: seq<T>, k: nat)
    requires k < |s|
    ensures multiset(s[..k] + s[k + 1..]) == multiset(s) - multiset{s[k]}
  {
    assert s == s[..k] + [s[k]] + s[k + 1..];
    assert multiset(s) == multiset(s[..k]) + multiset{s[k]} + multiset(s[k + 1..]);
  }

  lemma {:induction false} BytesWithout(t: Table, k: nat, free: bool)
    requires k < |t|
    ensures Bytes(t, free) == Bytes(t[..k] + t[k + 1..], free) + BytesOne(t[k], free)
  {
    assert t == t[..k] + [t[k]] + t[k + 1..];
    BytesConcat(t[..k] + [t[k]], t[k + 1..], free);
    BytesConcat(t[..k], [t[k]], free);
    BytesConcat(t[..k], t[k + 1..], free);
    BytesSmall(t[k], t[k], free);
  }

  lemma {:induction false} PermutedBytes(t: Table, c: Table, free: bool)
    requires multiset(t) == multiset(c)
    ensures Bytes(t, free) == Bytes(c, free)
    decreases |t|
  {
    if t == [] {
      assert |multiset(c)| == 0;
    } else {
      assert t[0] in multiset(c);
      var k :| 0 <= k < |c| && c[k] == t[0];
      var t1, c1 := t[..0] + t[1..], c[..k] + c[k + 1..];
      WithoutOne(t, 0);
      WithoutOne(c, k);
      assert |t1| == |t| - 1 && multiset(t1) == multiset(c1);
      PermutedBytes(t1, c1, free);
      BytesWithout(t, 0, free);
      BytesWithout(c, k, free);
    }
  }

  lemma {:induction false} PermutedFree(t: Table, c: Table)
    requires multiset(t) == multiset(c) && AllFree(c)
    ensures AllFree(t)
  {
    SameElements(t, c);
    forall i | 0 <= i < |t|
      ensures WholePages(t[i]) && t[i].isFree
    {
      assert t[i] in c;
    }
  }

  lemma {:induction false} SortedScattered(t: Table, c: Table)
    requires multiset(t) == multiset(c) && Scattered(c) && SortedBases(t)
    ensures Ordered(t)
  {
    SameElements(t, c);
    PermutedFree(t, c);
    forall i, j | 0 <= i < j < |t|
      ensures t[i].End() <= t[j].base
    {
      assert t[i] in c && t[j] in c;
      if t[i] == t[j] { TwiceIn(t, i, j); NotTwice(c, t[i]); }
    }
  }

  lemma {:induction false} NotTwice(c: Table, r: Region)
    requires Scattered(c)
    ensures multiset(c)[r] <= 1
  {
    if c != [] {
      NotTwice(c[1..], r);
      assert c == [c[0]] + c[1..];
      assert c[0] !in c[1..];
    }
  }

  /** Folding entry i+1 into a touching entry i keeps order, coverage and bytes, also where
      entries overlap. */
  lemma {:induction false} MergeStep(t: Table, i: nat)
    requires SortedBases(t) && AllFree(t)
    requires i + 1 < |t| && t[i].End() == t[i + 1].base
    ensures var s := Absorb(t, i);
            && SortedBases(s) && AllFree(s) && (Ordered(t) ==> Ordered(s))
            && Bytes(s, true) == Bytes(t, true)
            && forall a :: Covered(s, a) <==> Covered(t, a)
  {
    MergeShape(t, i);
    AbsorbBytes(t, i, true);
    forall a
      ensures Covered(Absorb(t, i), a) <==> Covered(t, a)
    {
      AbsorbCovered(t, i, a);
    }
  }

  lemma {:induction false} MergedAt(t: Table, i: nat, k: nat)
    requires AllFree(t) && i + 1 < |t| && t[i].End() == t[i + 1].base && k < |t| - 1
    ensures var r := Absorb(t, i)[k];
            && r.base == t[if k <= i then k else k + 1].base && r.End() == t[if k < i then k else k + 1].End()
            && WholePages(r) && r.isFree
  {
    assert WholePages(t[i]) && WholePages(t[i + 1]);
  }

  lemma {:induction false} MergeShape(t: Table, i: nat)
    requires SortedBases(t) && AllFree(t) && i + 1 < |t| && t[i].End() == t[i + 1].base
    ensures var s := Absorb(t, i); SortedBases(s) && AllFree(s) && (Ordered(t) ==> Ordered(s))
  {
    var s := Absorb(t, i);
    forall k | 0 <= k < |s|
      ensures WholePages(s[k]) && s[k].isFree
    {
      MergedAt(t, i, k);
    }
    forall k, l | 0 <= k < l < |s|
      ensures s[k].base <= s[l].base && (Ordered(t) ==> s[k].End() <= s[l].base)
    {
      MergedAt(t, i, k);
      MergedAt(t, i, l);
    }
  }
}
