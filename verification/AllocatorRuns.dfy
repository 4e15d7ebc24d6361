/** Whole runs of the physical allocator: any sequence of `alloc_pages` and `free_pages`
    calls, with any arguments, as the code handles them. */
module AllocatorRuns {
  import opened Words
  import opened RegionTable
  import opened RegionLaws

  datatype Op = AllocOp(count: Word) | FreeOp(base: nat, count: Word)

  /** The table, and the blocks that callers got back and have not freed yet. */
  datatype State = State(table: Table, live: set<Block>)

  function Step(s: State, op: Op): State {
    match op
    case AllocOp(count) =>
      var sz := PageBytes(count);
      var addr := AllocAddress(s.table, sz);
      State(Alloc(s.table, sz), if addr != 0 then s.live + {(addr, sz)} else s.live)
    case FreeOp(base, count) =>
      State(Free(s.table, base, PageBytes(count)), s.live - {(base, PageBytes(count))})
  }

  function Run(s: State, ops: seq<Op>): State {
    if ops == [] then s else Step(Run(s, ops[..|ops| - 1]), ops[|ops| - 1])
  }

  /** No request of the run is for zero bytes (after 64-bit wrap-around). */
  ghost predicate Sized(ops: seq<Op>) {
    forall i :: 0 <= i < |ops| && ops[i].AllocOp? ==> PageBytes(ops[i].count) != 0
  }

  ghost predicate NoPageZero(t: Table) {
    forall i :: 0 <= i < |t| ==> 0 < t[i].base
  }

  /** A table as boot leaves it: every entry free, none at address 0. */
  ghost predicate Booted(t: Table) {
    Valid(t) && NoPageZero(t) && t != [] && forall i :: 0 <= i < |t| ==> t[i].isFree
  }

  lemma {:induction false} AllocNoPageZero(t: Table, sz: nat)
    requires NoPageZero(t)
    ensures NoPageZero(Alloc(t, sz))
  {
  }

  lemma {:induction false} AbsorbNoPageZero(t: Table, i: nat)
    requires NoPageZero(t) && i + 1 < |t|
    ensures NoPageZero(Absorb(t, i))
  {
  }

  lemma {:induction false} FreeNoPageZero(t: Table, base: nat, size: nat)
    requires NoPageZero(t)
    ensures NoPageZero(Free(t, base, size))
  {
    var i := Find(t, base, size);
    if i < |t| {
      var t1 := MarkFree(t, i);
      assert NoPageZero(t1);
      if 0 < i && t1[i - 1].isFree {
        AbsorbNoPageZero(t1, i - 1);
        var t2 := Absorb(t1, i - 1);
        if i < |t2| && t2[i].isFree { AbsorbNoPageZero(t2, i - 1); }
      } else if i + 1 < |t1| && t1[i + 1].isFree {
        AbsorbNoPageZero(t1, i);
      }
    }
  }

  // ---------------------------------------------------------------- the counted invariant

  lemma {:induction false} UsedBlocksCount(t: Table)
    requires forall i, j :: 0 <= i < j < |t| ==> t[i].base != t[j].base
    ensures |UsedBlocks(t)| == UsedCount(t)
  {
    if t == [] {
      assert UsedBlocks(t) == {};
    } else {
      var x := (t[0].base, t[0].len);
      UsedBlocksCount(t[1..]);
      forall b | b in UsedBlocks(t)
        ensures b in UsedBlocks(t[1..]) || (b == x && !t[0].isFree)
      {
        var k :| 0 <= k < |t| && !t[k].isFree && b == (t[k].base, t[k].len);
        assert k > 0 ==> t[1..][k - 1] == t[k];
      }
      forall b | b in UsedBlocks(t[1..])
        ensures b in UsedBlocks(t) && b != x
      {
        var k :| 0 <= k < |t[1..]| && !t[1..][k].isFree && b == (t[1..][k].base, t[1..][k].len);
        assert t[k + 1] == t[1..][k];
      }
      assert UsedBlocks(t) == UsedBlocks(t[1..]) + if t[0].isFree then {} else {x};
    }
  }

  ghost predicate Accounted(s: State, t0: Table) {
    && Valid(s.table) && NoPageZero(s.table)
    && UsedBlocks(s.table) == s.live
    && UsedCount(s.table) == |s.live|
    && Bytes(s.table, true) + Bytes(s.table, false) == Bytes(t0, true)
    && FreePairs(s.table) <= |t0| - 1
  }

  lemma {:induction false} AllFreeTotals(t: Table)
    requires forall i :: 0 <= i < |t| ==> t[i].isFree
    ensures Bytes(t, false) == 0 && UsedCount(t) == 0 && UsedBlocks(t) == {}
    ensures t != [] ==> FreePairs(t) == |t| - 1
  {
    if t != [] {
      AllFreeTotals(t[1..]);
      assert t == [t[0]] + t[1..];
      BytesConcat([t[0]], t[1..], false);
      BytesSmall(t[0], t[0], false);
    }
  }

  lemma {:induction false} AllocStepInv(s: State, count: Word, t0: Table)
    requires Accounted(s, t0) && PageBytes(count) != 0
    ensures Accounted(Step(s, AllocOp(count)), t0)
  {
    var t, sz := s.table, PageBytes(count);
    AllocValidIff(t, sz);
    AllocNoPageZero(t, sz);
    AllocPairs(t, sz);
    if Taken(t, sz) {
      AllocUsed(t, sz);
      TakenBytes(t, sz, true);
      TakenBytes(t, sz, false);
      assert TakenBase(t, sz) != 0;
      assert |s.live + {(TakenBase(t, sz), sz)}| == |s.live| + 1;
    }
  }

  lemma {:induction false} FreeStepInv(s: State, base: nat, count: Word, t0: Table)
    requires Accounted(s, t0)
    ensures Accounted(Step(s, FreeOp(base, count)), t0)
  {
    var t, sz := s.table, PageBytes(count);
    FreeValid(t, base, sz);
    FreeNoPageZero(t, base, sz);
    FreeUsed(t, base, sz);
    FreeBytes(t, base, sz);
    FreePairsKept(t, base, sz);
    DistinctBases(Free(t, base, sz));
    UsedBlocksCount(Free(t, base, sz));
  }

  lemma {:induction false} DistinctBases(t: Table)
    requires Valid(t)
    ensures forall i, j :: 0 <= i < j < |t| ==> t[i].base != t[j].base
  {
  }

  lemma {:induction false} StepInv(s: State, op: Op, t0: Table)
    requires Accounted(s, t0) && (op.AllocOp? ==> PageBytes(op.count) != 0)
    ensures Accounted(Step(s, op), t0)
  {
    match op {
      case AllocOp(count) => AllocStepInv(s, count, t0);
      case FreeOp(base, count) => FreeStepInv(s, base, count, t0);
    }
  }

  lemma {:induction false} RunInv(t0: Table, ops: seq<Op>)
    requires Booted(t0) && Sized(ops)
    ensures Accounted(Run(State(t0, {}), ops), t0)
  {
    if ops == [] {
      AllFreeTotals(t0);
    } else {
      RunInv(t0, ops[..|ops| - 1]);
      StepInv(Run(State(t0, {}), ops[..|ops| - 1]), ops[|ops| - 1], t0);
    }
  }

  /** In every run: the table stays ordered, aligned and disjoint; the used entries are
      exactly the blocks returned and not yet freed; no two of those share a byte, and none
      of their bytes is free; free and used bytes add up to the boot total. */
  lemma {:induction false} RunSafety(t0: Table, ops: seq<Op>)
    requires Booted(t0) && Sized(ops)
    ensures var s := Run(State(t0, {}), ops);
            && Valid(s.table)
            && UsedBlocks(s.table) == s.live
            && (forall b, c, a :: b in s.live && c in s.live && b != c && InBlock(b, a) ==> !InBlock(c, a))
            && (forall b, a :: b in s.live && InBlock(b, a) ==> !FreeByte(s.table, a))
            && Bytes(s.table, true) + Bytes(s.table, false) == Bytes(t0, true)
  {
    RunInv(t0, ops);
    var s := Run(State(t0, {}), ops);
    forall b | b in s.live
      ensures forall a :: InBlock(b, a) ==> !FreeByte(s.table, a)
      ensures forall c, a :: c in s.live && c != b && InBlock(b, a) ==> !InBlock(c, a)
    {
      UsedDisjoint(s.table, b);
    }
  }

  /** Fragmentation bound: with `k` entries at boot and `n` live blocks the table holds at
      most 2n + k entries, so while 2n + k < 64 a request fails only for want of a fit. */
  lemma {:induction false} RunTableBound(t0: Table, ops: seq<Op>, sz: nat)
    requires Booted(t0) && Sized(ops)
    ensures var s := Run(State(t0, {}), ops);
            && |s.table| <= 2 * |s.live| + |t0|
            && (2 * |s.live| + |t0| < 64 ==>
                  (Taken(s.table, sz) <==> exists k :: 0 <= k < |s.table| && s.table[k].Fits(sz)))
  {
    RunInv(t0, ops);
    var s := Run(State(t0, {}), ops);
    TableBound(s.table);
    AllocFailure(s.table, sz);
  }

  /** What a caller sees of `get_free_memory` across one call, in any reachable state. */
  lemma {:induction false} FreeMemoryAccount(t0: Table, ops: seq<Op>, op: Op)
    requires Booted(t0) && Sized(ops) && (op.AllocOp? ==> PageBytes(op.count) != 0)
    ensures var s, s' := Run(State(t0, {}), ops), Step(Run(State(t0, {}), ops), op);
            match op
            case AllocOp(count) =>
              Bytes(s'.table, true) == Bytes(s.table, true)
                - (if AllocAddress(s.table, PageBytes(count)) != 0 then PageBytes(count) else 0)
            case FreeOp(base, count) =>
              Bytes(s'.table, true) == Bytes(s.table, true)
                + (if (base, PageBytes(count)) in s.live then PageBytes(count) else 0)
  {
    RunInv(t0, ops);
    var s := Run(State(t0, {}), ops);
    match op {
      case AllocOp(count) =>
        if Taken(s.table, PageBytes(count)) { TakenBytes(s.table, PageBytes(count), true); }
      case FreeOp(base, count) =>
        var sz := PageBytes(count);
        var i := Find(s.table, base, sz);
        FreeBytes(s.table, base, sz);
        FreeUsed(s.table, base, sz);
        UsedIndex(s.table, base, sz);
    }
  }

  lemma {:induction false} UsedIndex(t: Table, base: nat, size: nat)
    requires Valid(t)
    ensures (base, size) in UsedBlocks(t) <==> Find(t, base, size) < |t| && !t[Find(t, base, size)].isFree
  {
    if (base, size) in UsedBlocks(t) {
      var k :| 0 <= k < |t| && !t[k].isFree && (base, size) == (t[k].base, t[k].len);
      FindUsed(t, k);
    }
  }

  // ---------------------------------------------------------------- separated free runs

  /** All entries free and strictly separated: the form in which boot leaves the table. */
  ghost predicate Canonical(t: Table) {
    && (forall i :: 0 <= i < |t| ==> t[i].isFree && 0 < t[i].len)
    && (forall i, j :: 0 <= i < j < |t| ==> t[i].End() < t[j].base)
  }

  lemma {:induction false} CanonicalHead(s: Table, t: Table)
    requires Canonical(s) && Canonical(t) && s != []
    requires forall a :: Covered(s, a) <==> Covered(t, a)
    ensures t != [] && s[0] == t[0]
  {
    assert s[0].Covers(s[0].base) && Covered(s, s[0].base);
    assert t[0].Covers(t[0].base) && Covered(t, t[0].base);
    assert s[0].base == t[0].base;
    assert !Covered(s, s[0].End()) && !Covered(t, t[0].End());
    assert !t[0].Covers(s[0].End()) && !s[0].Covers(t[0].End());
  }

  lemma {:induction false} FirstCovered(t: Table)
    requires Canonical(t)
    ensures t != [] ==> Covered(t, t[0].base)
  {
    if t != [] { assert t[0].Covers(t[0].base); }
  }

  lemma {:induction false} CanonicalTail(t: Table)
    requires Canonical(t) && t != []
    ensures Canonical(t[1..])
    ensures forall a :: Covered(t[1..], a) <==> Covered(t, a) && t[0].End() < a
  {
    forall a
      ensures Covered(t[1..], a) <==> Covered(t, a) && t[0].End() < a
    {
      if Covered(t[1..], a) {
        var k :| 0 <= k < |t[1..]| && t[1..][k].Covers(a);
        assert t[k + 1].Covers(a);
      }
      if Covered(t, a) && t[0].End() < a {
        var k :| 0 <= k < |t| && t[k].Covers(a);
        assert t[1..][k - 1].Covers(a);
      }
    }
  }

  /** A table of separated free runs is determined by the bytes it covers. */
  lemma {:induction false} CanonicalUnique(s: Table, t: Table)
    requires Canonical(s) && Canonical(t)
    requires forall a :: Covered(s, a) <==> Covered(t, a)
    ensures s == t
  {
    FirstCovered(t);
    if s != [] {
      CanonicalHead(s, t);
      CanonicalTail(s);
      CanonicalTail(t);
      CanonicalUnique(s[1..], t[1..]);
    }
  }
}
