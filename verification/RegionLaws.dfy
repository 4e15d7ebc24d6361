/** What one request or one release means: which bytes become used or free, which blocks are
    live, and when a release undoes a request. */
module RegionLaws {
  import opened Words
  import opened RegionTable

  // ---------------------------------------------------------------- requests

  lemma {:induction false} TakenShape(t: Table, sz: nat, k: nat)
    requires Taken(t, sz)
    ensures var i, s := FirstFit(t, sz), Alloc(t, sz);
            && |s| == |t| + (if t[i].len == sz then 0 else 1)
            && s[i] == Region(t[i].base, sz, false)
            && (t[i].len != sz ==> s[i + 1] == Region(t[i].base + sz, t[i].len - sz, true))
            && (k < i ==> s[k] == t[k])
            && (i < k < |t| ==> s[k + |s| - |t|] == t[k])
  {
  }

  lemma {:induction false} TakenForward(t: Table, sz: nat, k: nat, a: int)
    requires Taken(t, sz) && k < |t| && t[k].Covers(a)
    ensures Covered(Alloc(t, sz), a)
    ensures t[k].isFree && !InBlock((TakenBase(t, sz), sz), a) ==> FreeByte(Alloc(t, sz), a)
  {
    var i, s := FirstFit(t, sz), Alloc(t, sz);
    TakenShape(t, sz, k);
    assert s[if k < i then k else if k > i then k + |s| - |t| else if a < t[i].base + sz then i else i + 1].Covers(a);
  }

  /** The entry before the request to which entry k after it belongs. */
  lemma {:induction false} TakenFrom(t: Table, sz: nat, k: nat) returns (at: nat)
    requires Taken(t, sz) && k < |Alloc(t, sz)|
    ensures var i, r := FirstFit(t, sz), Alloc(t, sz)[k];
            && at < |t| && (at != i ==> r == t[at])
            && (at == i ==> r == Region(t[i].base, sz, false) || (r.base == t[i].base + sz && r.End() == t[i].End()))
  {
    var i, d := FirstFit(t, sz), |Alloc(t, sz)| - |t|;
    TakenShape(t, sz, k);
    at := if k <= i then k else if k == i + 1 && d == 1 then i else k - d;
    TakenShape(t, sz, at);
  }

  lemma {:induction false} CoveredOnce(t: Table, i: nat, k: nat, a: int)
    requires Ordered(t) && i < |t| && k < |t| && t[i].Covers(a) && t[k].Covers(a)
    ensures i == k
  {
  }

  lemma {:induction false} TakenBackward(t: Table, sz: nat, k: nat, a: int)
    requires Valid(t) && Taken(t, sz) && k < |Alloc(t, sz)| && Alloc(t, sz)[k].Covers(a)
    ensures Covered(t, a)
    ensures Alloc(t, sz)[k].isFree ==> FreeByte(t, a) && !InBlock((TakenBase(t, sz), sz), a)
  {
    var i := FirstFit(t, sz);
    var at := TakenFrom(t, sz, k);
    assert t[at].Covers(a);
    if t[i].Covers(a) { CoveredOnce(t, i, at, a); }
  }

  /** A granted request takes the block at the front of the lowest free entry that fits:
      exactly its bytes stop being free, and no byte enters or leaves the table. */
  lemma {:induction false} AllocExact(t: Table, sz: nat)
    requires Valid(t) && Taken(t, sz)
    ensures var b := TakenBase(t, sz);
            && (forall k :: 0 <= k < |t| && t[k].Fits(sz) ==> b <= t[k].base)
            && (forall a :: FreeByte(Alloc(t, sz), a) <==> FreeByte(t, a) && !InBlock((b, sz), a))
            && (forall a :: InBlock((b, sz), a) ==> FreeByte(t, a))
            && (forall a :: Covered(Alloc(t, sz), a) <==> Covered(t, a))
  {
    var i, s := FirstFit(t, sz), Alloc(t, sz);
    var b := t[i].base;
    forall a
      ensures FreeByte(s, a) <==> FreeByte(t, a) && !InBlock((b, sz), a)
      ensures Covered(s, a) <==> Covered(t, a)
    {
      forall k | 0 <= k < |t| && t[k].Covers(a)
        ensures Covered(s, a) && (t[k].isFree && !InBlock((b, sz), a) ==> FreeByte(s, a))
      {
        TakenForward(t, sz, k, a);
      }
      forall k | 0 <= k < |s| && s[k].Covers(a)
        ensures Covered(t, a) && (s[k].isFree ==> FreeByte(t, a) && !InBlock((b, sz), a))
      {
        TakenBackward(t, sz, k, a);
      }
    }
    forall a | InBlock((b, sz), a)
      ensures FreeByte(t, a)
    {
      assert t[i].Covers(a);
    }
  }

  lemma {:induction false} SplitUsed(t: Table, i: nat, sz: nat)
    requires i < |t| && t[i].isFree && sz <= t[i].len
    ensures UsedBlocks(Split(t, i, sz)) == UsedBlocks(t) + {(t[i].base, sz)}
  {
    var s := Split(t, i, sz);
    forall x | x in UsedBlocks(t)
      ensures x in UsedBlocks(s)
    {
      var k :| 0 <= k < |t| && !t[k].isFree && x == (t[k].base, t[k].len);
      assert s[if k < i then k else k + 1] == t[k];
    }
    forall x | x in UsedBlocks(s)
      ensures x in UsedBlocks(t) + {(t[i].base, sz)}
    {
      var k :| 0 <= k < |s| && !s[k].isFree && x == (s[k].base, s[k].len);
      assert k < i ==> t[k] == s[k];
      assert k > i ==> t[k - 1] == s[k];
    }
    assert s[i] == Region(t[i].base, sz, false);
  }

  lemma {:induction false} WholeUsed(t: Table, i: nat)
    requires i < |t| && t[i].isFree
    ensures UsedBlocks(t[i := t[i].(isFree := false)]) == UsedBlocks(t) + {(t[i].base, t[i].len)}
  {
    var s := t[i := t[i].(isFree := false)];
    forall x | x in UsedBlocks(t)
      ensures x in UsedBlocks(s)
    {
      var k :| 0 <= k < |t| && !t[k].isFree && x == (t[k].base, t[k].len);
      assert s[k] == t[k];
    }
    assert s[i] == Region(t[i].base, t[i].len, false);
  }

  /** A granted request adds exactly one live block, the one it returns. */
  lemma {:induction false} AllocUsed(t: Table, sz: nat)
    requires Valid(t) && Taken(t, sz) && 0 < sz
    ensures UsedBlocks(Alloc(t, sz)) == UsedBlocks(t) + {(TakenBase(t, sz), sz)}
    ensures (TakenBase(t, sz), sz) !in UsedBlocks(t)
  {
    var i := FirstFit(t, sz);
    if t[i].len == sz { WholeUsed(t, i); } else { SplitUsed(t, i, sz); }
    forall k | 0 <= k < |t| && t[k].base == t[i].base
      ensures k == i
    {
    }
  }

  /** A request fails exactly when no free entry fits, or the table is full and the lowest
      fit is longer than the request; it is then reported by 0 and changes nothing. A granted
      request is reported by a non-zero address unless it lies at physical address 0. */
  lemma {:induction false} AllocFailure(t: Table, sz: nat)
    ensures !Taken(t, sz) <==>
      || (forall k :: 0 <= k < |t| ==> !t[k].Fits(sz))
      || (|t| >= MAX_REGIONS && exists k :: 0 <= k < |t| && t[k].Fits(sz) && t[k].len != sz
                                  && forall j :: 0 <= j < k ==> !t[j].Fits(sz))
    ensures !Taken(t, sz) ==> Alloc(t, sz) == t && AllocAddress(t, sz) == 0
    ensures AllocAddress(t, sz) == 0 <==> !Taken(t, sz) || TakenBase(t, sz) == 0
  {
    var i := FirstFit(t, sz);
    if i < |t| { assert t[i].Fits(sz); }
  }

  // ---------------------------------------------------------------- releases

  lemma {:induction false} FindUsed(t: Table, i: nat)
    requires Valid(t) && i < |t|
    ensures Find(t, t[i].base, t[i].len) == i
  {
  }

  /** Folding entry i+1 into a touching entry i covers the same bytes. */
  lemma {:induction false} AbsorbCovered(t: Table, i: nat, a: int)
    requires i + 1 < |t| && t[i].End() == t[i + 1].base
    ensures Covered(Absorb(t, i), a) <==> Covered(t, a)
  {
    var s := Absorb(t, i);
    if k :| 0 <= k < |t| && t[k].Covers(a) {
      assert s[if k <= i then k else k - 1].Covers(a);
    }
    if k :| 0 <= k < |s| && s[k].Covers(a) {
      assert t[if k < i || (k == i && a < t[i].End()) then k else k + 1].Covers(a);
    }
  }

  lemma {:induction false} AbsorbFreeByte(t: Table, i: nat, a: int)
    requires i + 1 < |t| && t[i].End() == t[i + 1].base && t[i].isFree && t[i + 1].isFree
    ensures FreeByte(Absorb(t, i), a) <==> FreeByte(t, a)
  {
    var s := Absorb(t, i);
    if k :| 0 <= k < |t| && t[k].isFree && t[k].Covers(a) {
      assert s[if k <= i then k else k - 1].Covers(a);
    }
    if k :| 0 <= k < |s| && s[k].isFree && s[k].Covers(a) {
      assert t[if k < i || (k == i && a < t[i].End()) then k else k + 1].Covers(a);
    }
  }

  lemma {:induction false} AbsorbCover(t: Table, i: nat)
    requires i + 1 < |t| && t[i].End() == t[i + 1].base && t[i].isFree && t[i + 1].isFree
    ensures forall a :: Covered(Absorb(t, i), a) <==> Covered(t, a)
    ensures forall a :: FreeByte(Absorb(t, i), a) <==> FreeByte(t, a)
  {
    forall a
      ensures Covered(Absorb(t, i), a) <==> Covered(t, a)
      ensures FreeByte(Absorb(t, i), a) <==> FreeByte(t, a)
    {
      AbsorbCovered(t, i, a);
      AbsorbFreeByte(t, i, a);
    }
  }

  lemma {:induction false} MarkFreeCover(t: Table, i: nat)
    requires i < |t|
    ensures forall a :: Covered(MarkFree(t, i), a) <==> Covered(t, a)
    ensures forall a :: FreeByte(MarkFree(t, i), a) <==> FreeByte(t, a) || t[i].Covers(a)
  {
    var s := MarkFree(t, i);
    forall a
      ensures Covered(s, a) <==> Covered(t, a)
      ensures FreeByte(s, a) <==> FreeByte(t, a) || t[i].Covers(a)
    {
      forall k | 0 <= k < |t| && t[k].Covers(a)
        ensures Covered(s, a) && (t[k].isFree || k == i ==> FreeByte(s, a))
      {
        assert s[k].Covers(a);
      }
      forall k | 0 <= k < |t| && s[k].Covers(a)
        ensures Covered(t, a) && (k != i && s[k].isFree ==> FreeByte(t, a))
      {
        assert t[k].Covers(a);
      }
    }
  }

  lemma {:induction false} AbsorbFreeCover(t: Table, i: nat)
    requires Valid(t) && i < |t| && t[i].isFree && (i + 1 < |t| && t[i + 1].isFree ==> t[i].End() == t[i + 1].base)
    ensures forall a :: Covered(AbsorbFree(t, i), a) <==> Covered(t, a)
    ensures forall a :: FreeByte(AbsorbFree(t, i), a) <==> FreeByte(t, a)
  {
    if i + 1 < |t| && t[i + 1].isFree { AbsorbCover(t, i); }
  }

  lemma {:induction false} CoalesceCover(t: Table, i: nat)
    requires Valid(t) && i < |t| && t[i].isFree && Touching(t, i)
    ensures forall a :: Covered(Coalesce(t, i), a) <==> Covered(t, a)
    ensures forall a :: FreeByte(Coalesce(t, i), a) <==> FreeByte(t, a)
  {
    if 0 < i && t[i - 1].isFree {
      var t2 := Absorb(t, i - 1);
      AbsorbCover(t, i - 1);
      AbsorbValid(t, i - 1);
      assert i < |t2| ==> t2[i] == t[i + 1];
      assert t2[i - 1].End() == t[i].End();
      AbsorbFreeCover(t2, i - 1);
    } else {
      AbsorbFreeCover(t, i);
    }
  }

  /** Releasing where the free neighbours touch frees exactly the block's bytes. */
  lemma {:induction false} ReleaseTouching(t: Table, i: nat)
    requires Valid(t) && i < |t| && Touching(t, i)
    ensures forall a :: Covered(Release(t, i), a) <==> Covered(t, a)
    ensures forall a :: FreeByte(Release(t, i), a) <==> FreeByte(t, a) || t[i].Covers(a)
  {
    MarkFreeCover(t, i);
    CoalesceCover(MarkFree(t, i), i);
  }

  /** The entry that a release of entry i leaves behind, merged with its free neighbours. */
  function Merged(t: Table, i: nat): Block
    requires i < |t|
  {
    var left := 0 < i && t[i - 1].isFree;
    var right := i + 1 < |t| && t[i + 1].isFree;
    (if left then t[i - 1].base else t[i].base,
     (if left then t[i - 1].len else 0) + t[i].len + (if right then t[i + 1].len else 0))
  }

  lemma {:induction false} ReleasedEntry(t: Table, i: nat)
    requires i < |t|
    ensures var s, at := Release(t, i), if 0 < i && t[i - 1].isFree then i - 1 else i;
            at < |s| && s[at] == Region(Merged(t, i).0, Merged(t, i).1, true)
  {
    var t1 := MarkFree(t, i);
    if 0 < i && t1[i - 1].isFree {
      var t2 := Absorb(t1, i - 1);
      assert t2[i - 1] == t1[i - 1].(len := t[i - 1].len + t[i].len) && |t2| == |t| - 1;
      assert i + 1 < |t| ==> t2[i] == t[i + 1];
    }
  }

  /** Another free entry than entry i covers the byte. */
  ghost predicate FreeElsewhere(t: Table, i: nat, a: int) {
    exists k :: 0 <= k < |t| && k != i && t[k].isFree && t[k].Covers(a)
  }

  lemma {:induction false} AbsorbElsewhere(t: Table, i: nat, a: int)
    requires i + 1 < |t| && FreeElsewhere(Absorb(t, i), i, a)
    ensures exists k :: 0 <= k < |t| && k != i && k != i + 1 && t[k].isFree && t[k].Covers(a)
  {
    var s := Absorb(t, i);
    var k :| 0 <= k < |s| && k != i && s[k].isFree && s[k].Covers(a);
    assert t[if k < i then k else k + 1] == s[k];
  }

  /** Whatever else is free after a coalescence was so before. */
  lemma {:induction false} CoalesceElsewhere(t: Table, i: nat, a: int)
    requires i < |t|
    requires FreeElsewhere(Coalesce(t, i), if 0 < i && t[i - 1].isFree then i - 1 else i, a)
    ensures FreeElsewhere(t, i, a)
  {
    if 0 < i && t[i - 1].isFree {
      var t2 := Absorb(t, i - 1);
      if i < |t2| && t2[i].isFree { AbsorbElsewhere(t2, i - 1, a); }
      assert FreeElsewhere(t2, i - 1, a);
      AbsorbElsewhere(t, i - 1, a);
    } else if i + 1 < |t| && t[i + 1].isFree {
      AbsorbElsewhere(t, i, a);
    }
  }

  /** A release frees the merged entry and nothing else. */
  lemma {:induction false} ReleaseFrees(t: Table, i: nat, a: int)
    requires i < |t|
    ensures InBlock(Merged(t, i), a) ==> FreeByte(Release(t, i), a)
    ensures FreeByte(Release(t, i), a) ==> InBlock(Merged(t, i), a) || FreeByte(t, a)
  {
    ReleasedEntry(t, i);
    var s, at := Release(t, i), if 0 < i && t[i - 1].isFree then i - 1 else i;
    assert InBlock(Merged(t, i), a) ==> s[at].Covers(a);
    if FreeByte(s, a) && !InBlock(Merged(t, i), a) {
      assert FreeElsewhere(s, at, a);
      CoalesceElsewhere(MarkFree(t, i), i, a);
      StillFree(t, i, a);
    }
  }

  lemma {:induction false} StillFree(t: Table, i: nat, a: int)
    requires i < |t| && FreeElsewhere(MarkFree(t, i), i, a)
    ensures FreeByte(t, a)
  {
    var k :| 0 <= k < |t| && k != i && MarkFree(t, i)[k].isFree && MarkFree(t, i)[k].Covers(a);
    assert t[k].Covers(a);
  }

  lemma {:induction false} TouchingMerged(t: Table, i: nat, a: int)
    requires i < |t| && Touching(t, i) && InBlock(Merged(t, i), a)
    ensures t[i].Covers(a) || FreeByte(t, a)
  {
    if !t[i].Covers(a) { assert t[if a < t[i].base then i - 1 else i + 1].Covers(a); }
  }

  lemma {:induction false} UncoveredGap(t: Table, i: nat)
    requires Valid(t) && i + 1 < |t| && t[i].End() != t[i + 1].base
    ensures !Covered(t, t[i].End())
  {
  }

  lemma {:induction false} MergedCovers(t: Table, i: nat)
    requires Valid(t) && i < |t| && !Touching(t, i)
    ensures exists a :: Covered(Release(t, i), a) && !Covered(t, a)
  {
    var s := Release(t, i);
    if 0 < i && t[i - 1].isFree {
      if t[i - 1].End() != t[i].base {
        UncoveredGap(t, i - 1);
        assert s[i - 1].Covers(t[i - 1].End());
      } else {
        UncoveredGap(t, i);
        assert s[i - 1].Covers(t[i].End());
      }
    } else {
      UncoveredGap(t, i);
      assert s[i].Covers(t[i].End());
    }
  }

  /** `free_pages` keeps the table inside the memory it described if and only if the free
      table neighbours of the released entry touch it; otherwise it hands out bytes of the
      hole in between. */
  lemma {:induction false} ReleaseCoverageIff(t: Table, i: nat)
    requires Valid(t) && i < |t|
    ensures (forall a :: Covered(Release(t, i), a) <==> Covered(t, a)) <==> Touching(t, i)
  {
    if Touching(t, i) {
      ReleaseTouching(t, i);
    } else {
      MergedCovers(t, i);
    }
  }

  /** The live blocks after a release: the matched block goes, every other block stays. */
  lemma {:induction false} AbsorbUsed(t: Table, i: nat)
    requires i + 1 < |t| && t[i].isFree && t[i + 1].isFree
    ensures UsedBlocks(Absorb(t, i)) == UsedBlocks(t)
  {
    var s := Absorb(t, i);
    forall x | x in UsedBlocks(t)
      ensures x in UsedBlocks(s)
    {
      var k :| 0 <= k < |t| && !t[k].isFree && x == (t[k].base, t[k].len);
      assert s[if k < i then k else k - 1] == t[k];
    }
    forall x | x in UsedBlocks(s)
      ensures x in UsedBlocks(t)
    {
      var k :| 0 <= k < |s| && !s[k].isFree && x == (s[k].base, s[k].len);
      assert t[if k < i then k else k + 1] == s[k];
    }
  }

  lemma {:induction false} CoalesceUsed(t: Table, i: nat)
    requires i < |t| && t[i].isFree
    ensures UsedBlocks(Coalesce(t, i)) == UsedBlocks(t)
  {
    if 0 < i && t[i - 1].isFree {
      AbsorbUsed(t, i - 1);
      var t2 := Absorb(t, i - 1);
      if i < |t2| && t2[i].isFree { AbsorbUsed(t2, i - 1); }
    } else if i + 1 < |t| && t[i + 1].isFree {
      AbsorbUsed(t, i);
    }
  }

  lemma {:induction false} MarkFreeUsed(t: Table, i: nat)
    requires Valid(t) && i < |t|
    ensures UsedBlocks(MarkFree(t, i)) == UsedBlocks(t) - {(t[i].base, t[i].len)}
  {
    var s := MarkFree(t, i);
    forall x | x in UsedBlocks(t) && x != (t[i].base, t[i].len)
      ensures x in UsedBlocks(s)
    {
      var k :| 0 <= k < |t| && !t[k].isFree && x == (t[k].base, t[k].len);
      assert s[k] == t[k];
    }
    forall x | x in UsedBlocks(s)
      ensures x in UsedBlocks(t) && x != (t[i].base, t[i].len)
    {
      var k :| 0 <= k < |s| && !s[k].isFree && x == (s[k].base, s[k].len);
      assert t[k] == s[k];
    }
  }

  /** `free_pages` of any arguments: the block named is no longer live, all others are. */
  lemma {:induction false} FreeUsed(t: Table, base: nat, size: nat)
    requires Valid(t)
    ensures UsedBlocks(Free(t, base, size)) == UsedBlocks(t) - {(base, size)}
  {
    var i := Find(t, base, size);
    if i < |t| {
      MarkFreeUsed(t, i);
      CoalesceUsed(MarkFree(t, i), i);
    }
  }

  /** Two live blocks share no byte, and no live block holds a free byte. */
  lemma {:induction false} UsedDisjoint(t: Table, b: Block)
    requires Valid(t) && b in UsedBlocks(t)
    ensures forall a :: InBlock(b, a) ==> !FreeByte(t, a) && Covered(t, a)
    ensures forall c, a :: c in UsedBlocks(t) && c != b && InBlock(b, a) ==> !InBlock(c, a)
  {
    var i :| 0 <= i < |t| && !t[i].isFree && b == (t[i].base, t[i].len);
    forall a | InBlock(b, a)
      ensures !FreeByte(t, a) && Covered(t, a)
    {
      assert t[i].Covers(a);
    }
    forall c, a | c in UsedBlocks(t) && c != b && InBlock(b, a)
      ensures !InBlock(c, a)
    {
      var k :| 0 <= k < |t| && !t[k].isFree && c == (t[k].base, t[k].len);
      assert k != i;
    }
  }

  // ---------------------------------------------------------------- request then release

  lemma {:induction false} CoalesceIdle(t: Table, i: nat)
    requires i < |t|
    ensures Coalesce(t, i) == t <==> (i == 0 || !t[i - 1].isFree) && (i + 1 == |t| || !t[i + 1].isFree)
  {
    if 0 < i && t[i - 1].isFree {
      assert |Coalesce(t, i)| < |t|;
    } else if i + 1 < |t| && t[i + 1].isFree {
      assert |Coalesce(t, i)| < |t|;
    }
  }

  lemma {:induction false} SplitReleased(t: Table, i: nat, sz: nat)
    requires i < |t| && t[i].isFree && 0 < sz < t[i].len
    ensures Release(Split(t, i, sz), i) == t <==> i == 0 || !t[i - 1].isFree
  {
    var s := MarkFree(Split(t, i, sz), i);
    if 0 < i && t[i - 1].isFree {
      assert s[i - 1] == t[i - 1] && s[i].len == sz;
      var s2 := Absorb(s, i - 1);
      assert AbsorbFree(s2, i - 1)[i - 1].len >= s2[i - 1].len == t[i - 1].len + sz;
    } else {
      assert Absorb(s, i) == t;
    }
  }

  lemma {:induction false} WholeReleased(t: Table, i: nat)
    requires Valid(t) && i < |t| && t[i].isFree
    ensures var s := t[i := t[i].(isFree := false)];
            Free(s, t[i].base, t[i].len) == t <==> (i == 0 || !t[i - 1].isFree) && (i + 1 == |t| || !t[i + 1].isFree)
  {
    var s := t[i := t[i].(isFree := false)];
    assert Valid(s);
    FindUsed(s, i);
    assert MarkFree(s, i) == t;
    CoalesceIdle(t, i);
  }

  lemma {:induction false} SplitThenFree(t: Table, i: nat, sz: nat)
    requires Valid(t) && i < |t| < MAX_REGIONS && t[i].isFree && 0 < sz < t[i].len && sz % PAGE_SIZE == 0
    ensures Free(Split(t, i, sz), t[i].base, sz) == t <==> i == 0 || !t[i - 1].isFree
  {
    SplitValid(t, i, sz);
    SplitShape(t, i, sz, i);
    FindUsed(Split(t, i, sz), i);
    SplitReleased(t, i, sz);
  }

  /** A granted request followed at once by the release of its block restores the table
      entry for entry exactly when the entry it came from has no free left neighbour and,
      if it was taken whole, no free right neighbour either. */
  lemma {:induction false} AllocThenFree(t: Table, sz: nat, i: nat)
    requires Valid(t) && Taken(t, sz) && i == FirstFit(t, sz) && 0 < sz && sz % PAGE_SIZE == 0
    ensures Free(Alloc(t, sz), t[i].base, sz) == t <==>
              && (i == 0 || !t[i - 1].isFree)
              && (t[i].len == sz ==> i + 1 == |t| || !t[i + 1].isFree)
  {
    if t[i].len == sz {
      assert Alloc(t, sz) == t[i := t[i].(isFree := false)];
      WholeReleased(t, i);
    } else {
      assert Alloc(t, sz) == Split(t, i, sz);
      SplitThenFree(t, i, sz);
    }
  }

  // ---------------------------------------------------------------- free memory

  /** The addresses of the free bytes. */
  ghost function FreeSet(t: Table): set<int> {
    set a: int | 0 <= a < TWO64 && FreeByte(t, a)
  }

  ghost function BytesOf(r: Region): set<int> {
    set a: int | r.base <= a < r.End() && r.Covers(a)
  }

  lemma {:induction false} BytesOfSize(r: Region)
    ensures |BytesOf(r)| == r.len
    decreases r.len
  {
    if r.len == 0 {
      assert BytesOf(r) == {};
    } else {
      var s := r.(len := r.len - 1);
      BytesOfSize(s);
      forall a: int
        ensures a in BytesOf(r) <==> a in BytesOf(s) || a == s.End()
      {
        assert r.Covers(a) <==> s.Covers(a) || a == s.End();
      }
      assert BytesOf(r) == BytesOf(s) + {s.End()};
    }
  }

  lemma {:induction false} LastFree(t: Table, a: int)
    requires t != []
    ensures FreeByte(t, a) <==> FreeByte(t[..|t| - 1], a) || (t[|t| - 1].isFree && t[|t| - 1].Covers(a))
  {
    var s, n := t[..|t| - 1], |t| - 1;
    if FreeByte(s, a) {
      var k :| 0 <= k < |s| && s[k].isFree && s[k].Covers(a);
      assert t[k].Covers(a);
    }
    if FreeByte(t, a) {
      var k :| 0 <= k < |t| && t[k].isFree && t[k].Covers(a);
      if k < n { assert s[k].Covers(a); }
    }
  }

  lemma {:induction false} LastApart(t: Table, a: int)
    requires Valid(t) && t != [] && FreeByte(t[..|t| - 1], a)
    ensures !t[|t| - 1].Covers(a)
  {
    var k :| 0 <= k < |t| - 1 && t[..|t| - 1][k].isFree && t[..|t| - 1][k].Covers(a);
    assert t[k].End() <= t[|t| - 1].base;
  }

  /** The sum of the free lengths is the number of free bytes. */
  lemma {:induction false} FreeMemoryIsCount(t: Table)
    requires Valid(t)
    ensures Bytes(t, true) == |FreeSet(t)|
  {
    if t == [] {
      assert FreeSet(t) == {};
    } else {
      var s, r := t[..|t| - 1], t[|t| - 1];
      FreeMemoryIsCount(s);
      BytesOfSize(r);
      assert WholePages(r);
      forall a: int
        ensures a in FreeSet(t) <==> a in FreeSet(s) || (r.isFree && a in BytesOf(r))
        ensures a in FreeSet(s) ==> a !in BytesOf(r)
      {
        LastFree(t, a);
        if FreeByte(s, a) { LastApart(t, a); }
      }
      assert FreeSet(t) == FreeSet(s) + if r.isFree then BytesOf(r) else {};
    }
  }

  // ---------------------------------------------------------------- fragmentation

  /** Number of table positions where two free entries are neighbours. */
  function FreePairs(t: Table): nat {
    if |t| < 2 then 0
    else FreePairs(t[1..]) + if t[0].isFree && t[1].isFree then 1 else 0
  }

  function UsedCount(t: Table): nat {
    if t == [] then 0 else UsedCount(t[1..]) + if t[0].isFree then 0 else 1
  }

  function Seam(a: Table, b: Table): nat {
    if a != [] && b != [] && a[|a| - 1].isFree && b[0].isFree then 1 else 0
  }

  lemma {:induction false} PairsConcat(a: Table, b: Table)
    ensures FreePairs(a + b) == FreePairs(a) + FreePairs(b) + Seam(a, b)
    ensures UsedCount(a + b) == UsedCount(a) + UsedCount(b)
  {
    if a == [] {
      assert a + b == b;
    } else {
      assert (a + b)[1..] == a[1..] + b;
      PairsConcat(a[1..], b);
    }
  }

  lemma {:induction false} TableBound(t: Table)
    ensures t != [] ==> |t| <= 2 * UsedCount(t) + FreePairs(t) + (if t[0].isFree then 1 else 0)
  {
    if |t| >= 2 { TableBound(t[1..]); }
  }

  lemma {:induction false} SmallPairs(r: Region, s: Region)
    ensures FreePairs([r]) == 0 && UsedCount([r]) == if r.isFree then 0 else 1
    ensures FreePairs([r, s]) == if r.isFree && s.isFree then 1 else 0
    ensures UsedCount([r, s]) == UsedCount([r]) + UsedCount([s])
  {
    assert [r, s][1..] == [s];
  }

  lemma {:induction false} PairsJoin(a: Table, mid: Table, b: Table)
    requires mid != []
    ensures FreePairs(a + mid + b) == FreePairs(a) + FreePairs(mid) + FreePairs(b) + Seam(a, mid) + Seam(mid, b)
    ensures UsedCount(a + mid + b) == UsedCount(a) + UsedCount(mid) + UsedCount(b)
  {
    assert a + mid + b == a + (mid + b);
    PairsConcat(a, mid + b);
    PairsConcat(mid, b);
  }

  /** Two free neighbours become one free entry. */
  lemma {:induction false} JoinFree(t: Table, s: Table, a: Table, x: Region, y: Region, m: Region, b: Table)
    requires t == a + [x, y] + b && s == a + [m] + b && x.isFree && y.isFree && m.isFree
    ensures FreePairs(s) == FreePairs(t) - 1 && UsedCount(s) == UsedCount(t)
  {
    PairsJoin(a, [m], b);
    PairsJoin(a, [x, y], b);
    SmallPairs(x, y);
    SmallPairs(m, m);
    SmallPairs(y, m);
  }

  /** A free entry gives way to a used entry, perhaps followed by a free rest. */
  lemma {:induction false} JoinUsed(t: Table, s: Table, a: Table, x: Region, u: Region, rest: Table, b: Table)
    requires t == a + [x] + b && s == a + ([u] + rest) + b && x.isFree && !u.isFree
    requires rest == [] || (|rest| == 1 && rest[0].isFree)
    ensures FreePairs(s) <= FreePairs(t) && UsedCount(s) == UsedCount(t) + 1
  {
    PairsJoin(a, [x], b);
    PairsJoin(a, [u] + rest, b);
    SmallPairs(x, u);
    SmallPairs(u, if rest == [] then x else rest[0]);
    if rest == [] { assert [u] + rest == [u]; } else { assert [u] + rest == [u, rest[0]]; SmallPairs(rest[0], u); }
  }

  /** An entry is marked free. */
  lemma {:induction false} JoinMarked(t: Table, s: Table, a: Table, x: Region, r: Region, b: Table)
    requires t == a + [x] + b && s == a + [r] + b && r.isFree
    ensures UsedCount(s) == UsedCount(t) - if x.isFree then 0 else 1
    ensures FreePairs(s) <= FreePairs(t) + Seam(a, [r]) + Seam([r], b)
  {
    PairsJoin(a, [x], b);
    PairsJoin(a, [r], b);
    SmallPairs(x, r);
    SmallPairs(r, r);
  }

  lemma {:induction false} AllocPairs(t: Table, sz: nat)
    ensures FreePairs(Alloc(t, sz)) <= FreePairs(t)
    ensures UsedCount(Alloc(t, sz)) == UsedCount(t) + if Taken(t, sz) then 1 else 0
  {
    if Taken(t, sz) {
      var i := FirstFit(t, sz);
      var rest := if t[i].len == sz then [] else [Region(t[i].base + sz, t[i].len - sz, true)];
      JoinUsed(t, Alloc(t, sz), t[..i], t[i], Region(t[i].base, sz, false), rest, t[i + 1..]);
    }
  }

  lemma {:induction false} AbsorbPairs(t: Table, i: nat)
    requires i + 1 < |t| && t[i].isFree && t[i + 1].isFree
    ensures FreePairs(Absorb(t, i)) == FreePairs(t) - 1
    ensures UsedCount(Absorb(t, i)) == UsedCount(t)
  {
    JoinFree(t, Absorb(t, i), t[..i], t[i], t[i + 1], t[i].(len := t[i].len + t[i + 1].len), t[i + 2..]);
  }

  lemma {:induction false} CoalescePairs(t: Table, i: nat)
    requires i < |t| && t[i].isFree
    ensures UsedCount(Coalesce(t, i)) == UsedCount(t)
    ensures FreePairs(Coalesce(t, i)) == FreePairs(t)
              - (if 0 < i && t[i - 1].isFree then 1 else 0) - (if i + 1 < |t| && t[i + 1].isFree then 1 else 0)
  {
    if 0 < i && t[i - 1].isFree {
      AbsorbPairs(t, i - 1);
      var t2 := Absorb(t, i - 1);
      assert i < |t2| ==> t2[i] == t[i + 1];
      if i < |t2| && t2[i].isFree { AbsorbPairs(t2, i - 1); }
    } else if i + 1 < |t| && t[i + 1].isFree {
      AbsorbPairs(t, i);
    }
  }

  lemma {:induction false} Around(t: Table, i: nat, r: Region)
    requires i < |t|
    ensures t == t[..i] + [t[i]] + t[i + 1..] && t[i := r] == t[..i] + [r] + t[i + 1..]
  {
  }

  lemma {:induction false} SeamAround(t: Table, i: nat, r: Region)
    requires i < |t| && r.isFree
    ensures Seam(t[..i], [r]) == if 0 < i && t[i - 1].isFree then 1 else 0
    ensures Seam([r], t[i + 1..]) == if i + 1 < |t| && t[i + 1].isFree then 1 else 0
  {
  }

  lemma {:induction false} MarkFreePairs(t: Table, i: nat)
    requires i < |t|
    ensures UsedCount(MarkFree(t, i)) == UsedCount(t) - if t[i].isFree then 0 else 1
    ensures FreePairs(MarkFree(t, i)) <= FreePairs(t)
              + (if 0 < i && t[i - 1].isFree then 1 else 0) + (if i + 1 < |t| && t[i + 1].isFree then 1 else 0)
  {
    SeamAround(t, i, t[i].(isFree := true));
    Around(t, i, t[i].(isFree := true));
    JoinMarked(t, MarkFree(t, i), t[..i], t[i], t[i].(isFree := true), t[i + 1..]);
  }

  lemma {:induction false} FreePairsKept(t: Table, base: nat, size: nat)
    ensures var i := Find(t, base, size);
            && FreePairs(Free(t, base, size)) <= FreePairs(t)
            && UsedCount(Free(t, base, size)) == UsedCount(t) - if i < |t| && !t[i].isFree then 1 else 0
  {
    var i := Find(t, base, size);
    if i < |t| {
      MarkFreePairs(t, i);
      CoalescePairs(MarkFree(t, i), i);
    }
  }
}
