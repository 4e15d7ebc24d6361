/** When a run that frees everything restores the boot table: exactly if no release merged
    across a hole. */
module DrainLaws {
  import opened Words
  import opened RegionTable
  import opened RegionLaws
  import opened AllocatorRuns

  /** Entries k and k+1 are not two free neighbours that touch. */
  predicate Apart(t: Table, k: nat)
    requires k + 1 < |t|
  {
    t[k].isFree && t[k + 1].isFree ==> t[k].End() < t[k + 1].base
  }

  /** No two free table neighbours touch. */
  ghost predicate Settled(t: Table) {
    forall k :: 0 <= k < |t| - 1 ==> Apart(t, k)
  }

  lemma {:induction false} SplitSettled(t: Table, i: nat, sz: nat)
    requires Settled(t) && i < |t| && t[i].isFree && sz <= t[i].len
    ensures Settled(Split(t, i, sz))
  {
    var s := Split(t, i, sz);
    forall k | 0 <= k < |s| - 1
      ensures Apart(s, k)
    {
      assert k + 1 < i ==> s[k] == t[k] && s[k + 1] == t[k + 1] && Apart(t, k);
      assert k > i ==> s[k].End() == t[k - 1].End() && s[k + 1] == t[k] && Apart(t, k - 1);
    }
  }

  lemma {:induction false} AllocSettled(t: Table, sz: nat)
    requires Settled(t)
    ensures Settled(Alloc(t, sz))
  {
    if Taken(t, sz) {
      var i := FirstFit(t, sz);
      SplitSettled(t, i, sz);
      var u := t[i := t[i].(isFree := false)];
      forall k | 0 <= k < |u| - 1
        ensures Apart(u, k)
      {
        assert Apart(t, k);
      }
    }
  }

  lemma {:induction false} AbsorbApart(t: Table, i: nat)
    requires i + 1 < |t| && t[i].isFree && t[i + 1].isFree && t[i].End() == t[i + 1].base
    ensures forall k :: 0 <= k < |Absorb(t, i)| - 1 ==> Apart(Absorb(t, i), k) == Apart(t, if k < i then k else k + 1)
  {
  }

  lemma {:induction false} CoalesceSettled(t: Table, i: nat)
    requires i < |t| && t[i].isFree && Touching(t, i)
    requires forall k :: 0 <= k < |t| - 1 && k != i && k + 1 != i ==> Apart(t, k)
    ensures Settled(Coalesce(t, i))
  {
    if 0 < i && t[i - 1].isFree {
      AbsorbApart(t, i - 1);
      var t2 := Absorb(t, i - 1);
      if i < |t2| && t2[i].isFree { AbsorbApart(t2, i - 1); }
    } else if i + 1 < |t| && t[i + 1].isFree {
      AbsorbApart(t, i);
    }
  }

  /** Every release of the run finds its free table neighbours touching the block. */
  ghost predicate TouchingStep(t: Table, op: Op) {
    op.FreeOp? ==> var i := Find(t, op.base, PageBytes(op.count)); i < |t| ==> Touching(t, i)
  }

  ghost predicate TouchingRun(s: State, ops: seq<Op>) {
    ops == [] || (TouchingRun(s, ops[..|ops| - 1]) && TouchingStep(Run(s, ops[..|ops| - 1]).table, ops[|ops| - 1]))
  }

  lemma {:induction false} TouchingRunKeeps(t0: Table, ops: seq<Op>)
    requires Booted(t0) && Settled(t0) && Sized(ops) && TouchingRun(State(t0, {}), ops)
    ensures var t := Run(State(t0, {}), ops).table;
            Settled(t) && forall a :: Covered(t, a) <==> Covered(t0, a)
  {
    if ops != [] {
      var before := ops[..|ops| - 1];
      TouchingRunKeeps(t0, before);
      RunInv(t0, before);
      var s, op := Run(State(t0, {}), before), ops[|ops| - 1];
      match op {
        case AllocOp(count) =>
          AllocSettled(s.table, PageBytes(count));
          if Taken(s.table, PageBytes(count)) { AllocExact(s.table, PageBytes(count)); }
        case FreeOp(base, count) =>
          var i := Find(s.table, base, PageBytes(count));
          if i < |s.table| {
            ReleaseTouching(s.table, i);
            var t1 := MarkFree(s.table, i);
            assert forall k :: 0 <= k < |t1| - 1 && k != i && k + 1 != i ==> Apart(t1, k) == Apart(s.table, k);
            CoalesceSettled(t1, i);
          }
      }
    }
  }

  // ---------------------------------------------------------------- the sum of addresses

  /** Sum of 2a + 1 over the addresses a of an entry: End^2 - base^2. */
  function Weight(base: nat, len: nat): nat { len * (2 * base + len) }

  function Spread(t: Table): nat {
    if t == [] then 0 else Spread(t[..|t| - 1]) + Weight(t[|t| - 1].base, t[|t| - 1].len)
  }

  lemma {:induction false} SpreadConcat(a: Table, b: Table)
    ensures Spread(a + b) == Spread(a) + Spread(b)
    decreases |b|
  {
    if b == [] {
      assert a + b == a;
    } else {
      assert (a + b)[..|a + b| - 1] == a + b[..|b| - 1];
      SpreadConcat(a, b[..|b| - 1]);
    }
  }

  lemma {:induction false} SpreadSmall(r: Region, s: Region)
    ensures Spread([r]) == Weight(r.base, r.len)
    ensures Spread([r, s]) == Weight(r.base, r.len) + Weight(s.base, s.len)
  {
    assert [r][..0] == [];
    assert [r, s][..1] == [r];
  }

  lemma {:induction false} SpreadReplace(a: Table, mid: Table, mid': Table, b: Table)
    ensures Spread(a + mid' + b) - Spread(a + mid + b) == Spread(mid') - Spread(mid)
  {
    SpreadConcat(a + mid, b);
    SpreadConcat(a, mid);
    SpreadConcat(a + mid', b);
    SpreadConcat(a, mid');
  }

  /** Cutting a block in two keeps the sum; gluing blocks across a hole lowers it. */
  lemma {:induction false} WeightGlued(base: nat, l1: nat, next: nat, l2: nat)
    requires base + l1 <= next
    ensures Weight(base, l1 + l2) == Weight(base, l1) + Weight(next, l2) - 2 * l2 * (next - (base + l1))
  {
  }

  lemma {:induction false} AbsorbSpread(t: Table, i: nat)
    requires i + 1 < |t| && t[i].End() <= t[i + 1].base && 0 < t[i + 1].len
    ensures Spread(Absorb(t, i)) <= Spread(t)
    ensures Spread(Absorb(t, i)) == Spread(t) <==> t[i].End() == t[i + 1].base
  {
    var m := t[i].(len := t[i].len + t[i + 1].len);
    assert t == t[..i] + [t[i], t[i + 1]] + t[i + 2..];
    SpreadReplace(t[..i], [t[i], t[i + 1]], [m], t[i + 2..]);
    SpreadSmall(t[i], t[i + 1]);
    SpreadSmall(m, m);
    var l2, hole := t[i + 1].len, t[i + 1].base - t[i].End();
    WeightGlued(t[i].base, t[i].len, t[i + 1].base, l2);
    Positive(l2, hole);
  }

  lemma {:induction false} Positive(l: nat, hole: nat)
    requires 0 < l
    ensures 2 * l * hole >= 0 && (2 * l * hole == 0 <==> hole == 0)
  {
  }

  lemma {:induction false} MarkSpread(t: Table, i: nat, r: Region)
    requires i < |t| && r.base == t[i].base && r.len == t[i].len
    ensures Spread(t[i := r]) == Spread(t)
  {
    Around(t, i, r);
    SpreadReplace(t[..i], [t[i]], [r], t[i + 1..]);
    SpreadSmall(t[i], r);
    SpreadSmall(r, r);
  }

  lemma {:induction false} WeightCut(base: nat, l1: nat, l2: nat)
    ensures Weight(base, l1 + l2) == Weight(base, l1) + Weight(base + l1, l2)
  {
    WeightGlued(base, l1, base + l1, l2);
  }

  lemma {:induction false} SplitSpread(t: Table, i: nat, sz: nat)
    requires i < |t| && sz <= t[i].len
    ensures Spread(Split(t, i, sz)) == Spread(t)
  {
    var r, rest := t[i], t[i].len - sz;
    var u, v := Region(r.base, sz, false), Region(r.base + sz, rest, true);
    Around(t, i, r);
    SpreadReplace(t[..i], [r], [u, v], t[i + 1..]);
    SpreadSmall(r, r);
    SpreadSmall(u, v);
    WeightCut(r.base, sz, rest);
  }

  lemma {:induction false} AllocSpread(t: Table, sz: nat)
    ensures Spread(Alloc(t, sz)) == Spread(t)
  {
    if Taken(t, sz) {
      var i := FirstFit(t, sz);
      if t[i].len == sz { MarkSpread(t, i, t[i].(isFree := false)); } else { SplitSpread(t, i, sz); }
    }
  }

  lemma {:induction false} AbsorbFreeSpread(t: Table, i: nat)
    requires Valid(t) && i < |t|
    ensures Spread(AbsorbFree(t, i)) <= Spread(t)
    ensures Spread(AbsorbFree(t, i)) == Spread(t) <==> (i + 1 < |t| && t[i + 1].isFree ==> t[i].End() == t[i + 1].base)
  {
    if i + 1 < |t| && t[i + 1].isFree { AbsorbSpread(t, i); }
  }

  /** After a left merge the entry ends where the released one would without the hole. */
  lemma {:induction false} AbsorbedRight(t: Table, i: nat)
    requires 0 < i < |t|
    ensures var t2 := Absorb(t, i - 1);
            && |t2| == |t| - 1 && t2[i - 1].End() == t[i - 1].End() + t[i].len
            && (i < |t2| ==> t2[i] == t[i + 1])
  {
  }

  lemma {:induction false} LeftSpread(t: Table, i: nat)
    requires Valid(t) && 0 < i < |t| && t[i - 1].isFree
    ensures Spread(AbsorbFree(Absorb(t, i - 1), i - 1)) <= Spread(t)
    ensures Spread(AbsorbFree(Absorb(t, i - 1), i - 1)) == Spread(t) <==> Touching(t, i)
  {
    AbsorbSpread(t, i - 1);
    AbsorbValid(t, i - 1);
    AbsorbFreeSpread(Absorb(t, i - 1), i - 1);
    LeftTouching(t, i);
  }

  /** Where the left neighbour touches, so does the right one before and after the merge. */
  lemma {:induction false} LeftTouching(t: Table, i: nat)
    requires 0 < i < |t| && t[i - 1].isFree
    ensures var t2 := Absorb(t, i - 1);
            Touching(t, i) <==>
              t[i - 1].End() == t[i].base && (i < |t2| && t2[i].isFree ==> t2[i - 1].End() == t2[i].base)
  {
    AbsorbedRight(t, i);
  }

  lemma {:induction false} CoalesceSpread(t: Table, i: nat)
    requires Valid(t) && i < |t|
    ensures Spread(Coalesce(t, i)) <= Spread(t)
    ensures Spread(Coalesce(t, i)) == Spread(t) <==> Touching(t, i)
  {
    if 0 < i && t[i - 1].isFree {
      LeftSpread(t, i);
    } else {
      AbsorbFreeSpread(t, i);
    }
  }

  lemma {:induction false} MarkFreeKeeps(t: Table, i: nat)
    requires Valid(t) && i < |t|
    ensures Valid(MarkFree(t, i)) && (Touching(MarkFree(t, i), i) <==> Touching(t, i))
  {
  }

  /** A release keeps the sum exactly when it merges across no hole. */
  lemma {:induction false} ReleaseSpread(t: Table, i: nat)
    requires Valid(t) && i < |t|
    ensures Spread(Release(t, i)) <= Spread(t)
    ensures Spread(Release(t, i)) == Spread(t) <==> Touching(t, i)
  {
    MarkSpread(t, i, t[i].(isFree := true));
    MarkFreeKeeps(t, i);
    CoalesceSpread(MarkFree(t, i), i);
  }

  lemma {:induction false} StepSpread(s: State, op: Op)
    requires Valid(s.table)
    ensures Spread(Step(s, op).table) <= Spread(s.table)
    ensures Spread(Step(s, op).table) == Spread(s.table) <==> TouchingStep(s.table, op)
  {
    match op {
      case AllocOp(count) => AllocSpread(s.table, PageBytes(count));
      case FreeOp(base, count) =>
        var i := Find(s.table, base, PageBytes(count));
        if i < |s.table| { ReleaseSpread(s.table, i); }
    }
  }

  lemma {:induction false} RunSpread(t0: Table, ops: seq<Op>)
    requires Booted(t0) && Sized(ops)
    ensures Spread(Run(State(t0, {}), ops).table) <= Spread(t0)
    ensures Spread(Run(State(t0, {}), ops).table) == Spread(t0) <==> TouchingRun(State(t0, {}), ops)
  {
    if ops != [] {
      var before := ops[..|ops| - 1];
      RunSpread(t0, before);
      RunInv(t0, before);
      StepSpread(Run(State(t0, {}), before), ops[|ops| - 1]);
    }
  }

  // ---------------------------------------------------------------- drain

  lemma {:induction false} TouchingDrain(t0: Table, ops: seq<Op>)
    requires Booted(t0) && Canonical(t0) && Sized(ops) && TouchingRun(State(t0, {}), ops)
    requires Run(State(t0, {}), ops).live == {}
    ensures Run(State(t0, {}), ops).table == t0
  {
    TouchingRunKeeps(t0, ops);
    RunInv(t0, ops);
    var t := Run(State(t0, {}), ops).table;
    NoneUsed(t);
    SettledCanonical(t);
    CanonicalUnique(t, t0);
  }

  /** Drain: once every block is freed, in whatever order, the table is the boot table exactly
      when no release of the run merged across a hole. A hole once swallowed is never given
      back. */
  lemma {:induction false} DrainIff(t0: Table, ops: seq<Op>)
    requires Booted(t0) && Canonical(t0) && Sized(ops)
    requires Run(State(t0, {}), ops).live == {}
    ensures Run(State(t0, {}), ops).table == t0 <==> TouchingRun(State(t0, {}), ops)
  {
    RunSpread(t0, ops);
    if TouchingRun(State(t0, {}), ops) { TouchingDrain(t0, ops); }
  }

  lemma {:induction false} NoneUsed(t: Table)
    requires UsedBlocks(t) == {}
    ensures forall i :: 0 <= i < |t| ==> t[i].isFree
  {
    forall i | 0 <= i < |t|
      ensures t[i].isFree
    {
      var b := (t[i].base, t[i].len);
      assert !t[i].isFree ==> b in UsedBlocks(t);
    }
  }

  lemma {:induction false} SettledCanonical(t: Table)
    requires Valid(t) && Settled(t) && forall k :: 0 <= k < |t| ==> t[k].isFree
    ensures Canonical(t)
  {
    forall k, l | 0 <= k < l < |t|
      ensures t[k].End() < t[l].base
    {
      assert Apart(t, k);
      assert k + 1 == l || t[k + 1].End() <= t[l].base;
    }
  }

  /** Entries follow one another without a hole. */
  ghost predicate Tiled(t: Table) {
    forall i :: 0 <= i < |t| - 1 ==> t[i].End() == t[i + 1].base
  }

  lemma {:induction false} AllocTiled(t: Table, sz: nat)
    requires Tiled(t)
    ensures Tiled(Alloc(t, sz))
  {
    if Taken(t, sz) {
      var i, s := FirstFit(t, sz), Alloc(t, sz);
      var d := |s| - |t|;
      forall k | 0 <= k < |s| - 1
        ensures s[k].End() == s[k + 1].base
      {
        TakenShape(t, sz, if k < i then k else if k - d >= 0 then k - d else 0);
        TakenShape(t, sz, if k + 1 < i then k + 1 else if k + 1 - d >= 0 then k + 1 - d else 0);
      }
    }
  }

  lemma {:induction false} AbsorbTiled(t: Table, i: nat)
    requires Tiled(t) && i + 1 < |t|
    ensures Tiled(Absorb(t, i))
  {
    var s := Absorb(t, i);
    forall k | 0 <= k < |s| - 1
      ensures s[k].End() == s[k + 1].base
    {
      assert t[k].End() == t[k + 1].base;
      assert k >= i ==> t[k + 1].End() == t[k + 2].base;
    }
  }

  lemma {:induction false} ReleaseTiled(t: Table, i: nat)
    requires Tiled(t) && i < |t|
    ensures Tiled(Release(t, i)) && Touching(t, i)
  {
    var t1 := MarkFree(t, i);
    assert Tiled(t1);
    if 0 < i && t1[i - 1].isFree {
      AbsorbTiled(t1, i - 1);
      var t2 := Absorb(t1, i - 1);
      if i < |t2| && t2[i].isFree { AbsorbTiled(t2, i - 1); }
    } else if i + 1 < |t1| && t1[i + 1].isFree {
      AbsorbTiled(t1, i);
    }
  }

  lemma {:induction false} OneRegionTiled(t0: Table, ops: seq<Op>)
    requires |t0| == 1
    ensures Tiled(Run(State(t0, {}), ops).table) && TouchingRun(State(t0, {}), ops)
  {
    if ops != [] {
      var before := ops[..|ops| - 1];
      OneRegionTiled(t0, before);
      var t := Run(State(t0, {}), before).table;
      match ops[|ops| - 1] {
        case AllocOp(count) =>
          AllocTiled(t, PageBytes(count));
        case FreeOp(base, count) =>
          if Find(t, base, PageBytes(count)) < |t| { ReleaseTiled(t, Find(t, base, PageBytes(count))); }
      }
    }
  }

  lemma {:induction false} OneRegionCanonical(t0: Table)
    requires Booted(t0) && |t0| == 1
    ensures Canonical(t0)
  {
  }

  lemma {:induction false} LoneAllocThenFree(t: Table, sz: nat)
    requires Valid(t) && FreePairs(t) == 0 && Taken(t, sz) && 0 < sz && sz % PAGE_SIZE == 0
    ensures Free(Alloc(t, sz), AllocAddress(t, sz), sz) == t
  {
    var i := FirstFit(t, sz);
    AllocThenFree(t, sz, i);
    NoPairs(t, i);
    if i > 0 { NoPairs(t, i - 1); }
  }

  /** From a one-region map every run drains back to the boot table, and in every reachable
      state a granted request followed by its release changes nothing. */
  lemma {:induction false} OneRegionDrain(t0: Table, ops: seq<Op>, count: Word)
    requires Booted(t0) && |t0| == 1 && Sized(ops) && PageBytes(count) != 0
    ensures Run(State(t0, {}), ops).live == {} ==> Run(State(t0, {}), ops).table == t0
    ensures var t, sz := Run(State(t0, {}), ops).table, PageBytes(count);
            Taken(t, sz) ==> Free(Alloc(t, sz), AllocAddress(t, sz), sz) == t
  {
    OneRegionTiled(t0, ops);
    OneRegionCanonical(t0);
    RunInv(t0, ops);
    var t, sz := Run(State(t0, {}), ops).table, PageBytes(count);
    if Run(State(t0, {}), ops).live == {} { DrainIff(t0, ops); }
    if Taken(t, sz) { LoneAllocThenFree(t, sz); }
  }

  lemma {:induction false} NoPairs(t: Table, i: nat)
    requires FreePairs(t) == 0 && i < |t|
    ensures i + 1 < |t| ==> !t[i].isFree || !t[i + 1].isFree
  {
    if 0 < i { NoPairs(t[1..], i - 1); }
  }

  lemma {:induction false} ShiftForward(t: Table, i: nat, k: nat, a: int)
    requires i + 1 < |t| && k < |t| && k != i + 1 && t[k].Covers(a)
    ensures Covered(Absorb(t, i), a)
  {
    assert Absorb(t, i)[if k <= i then k else k - 1].Covers(a);
  }

  lemma {:induction false} ShiftBackward(t: Table, i: nat, k: nat, a: int)
    requires i + 1 < |t| && Ordered(t) && k < |Absorb(t, i)| && Absorb(t, i)[k].Covers(a)
    ensures t[i].End() <= a < t[i].End() + t[i + 1].len || (Covered(t, a) && !t[i + 1].Covers(a))
  {
    var at := if k <= i then k else k + 1;
    assert t[at].Covers(a) || (k == i && t[i].End() <= a);
  }

  /** A merge across a hole keeps the number of bytes, so it moves the swallowed entry down:
      the hole is gained from its left end on, and as much is lost at the right end. */
  lemma {:induction false} HoleShift(t: Table, i: nat, a: int)
    requires Valid(t) && i + 1 < |t|
    ensures Covered(Absorb(t, i), a) <==>
              (Covered(t, a) && !t[i + 1].Covers(a)) || t[i].End() <= a < t[i].End() + t[i + 1].len
  {
    if Covered(Absorb(t, i), a) {
      var k :| 0 <= k < |Absorb(t, i)| && Absorb(t, i)[k].Covers(a);
      ShiftBackward(t, i, k, a);
    }
    if Covered(t, a) && !t[i + 1].Covers(a) {
      var k :| 0 <= k < |t| && t[k].Covers(a);
      ShiftForward(t, i, k, a);
    }
    if t[i].End() <= a < t[i].End() + t[i + 1].len { assert Absorb(t, i)[i].Covers(a); }
  }

  /** With two regions and a hole between them, one page taken from the first and given back
      leaves a single entry that runs into the hole, and the page at the end is lost. */
  lemma {:induction false} HoleIsHandedOut() returns (t0: Table, t1: Table, t2: Table)
    ensures Booted(t0) && Canonical(t0)
    ensures t1 == Alloc(t0, PAGE_SIZE) && t2 == Free(t1, AllocAddress(t0, PAGE_SIZE), PAGE_SIZE)
    ensures UsedBlocks(t2) == {} && t2 != t0
    ensures FreeByte(t2, 0x2000) && !Covered(t0, 0x2000)
    ensures FreeByte(t0, 0x3000) && !Covered(t2, 0x3000)
  {
    t0 := [Region(0x1000, 0x1000, true), Region(0x3000, 0x1000, true)];
    t1 := [Region(0x1000, 0x1000, false), Region(0x3000, 0x1000, true)];
    t2 := [Region(0x1000, 0x2000, true)];
    assert FirstFit(t0, PAGE_SIZE) == 0;
    ReleaseIntoHole(t0, t1);
    assert t2[0].Covers(0x2000);
    assert t0[1].Covers(0x3000);
  }

  lemma {:induction false} ReleaseIntoHole(t0: Table, t1: Table)
    requires t0 == [Region(0x1000, 0x1000, true), Region(0x3000, 0x1000, true)]
    requires t1 == [Region(0x1000, 0x1000, false), Region(0x3000, 0x1000, true)]
    ensures Free(t1, 0x1000, PAGE_SIZE) == [Region(0x1000, 0x2000, true)]
  {
    assert Find(t1, 0x1000, PAGE_SIZE) == 0;
    assert MarkFree(t1, 0) == t0;
    assert Coalesce(t0, 0) == Absorb(t0, 0);
    assert Absorb(t0, 0) == [Region(0x1000, 0x2000, true)];
  }
}
