/** Every word of physical memory after a `map_page` call with any flags: which page-table slots
    are written and with what, which pages are cleared, and that nothing else changes. */
module CallWords {
  import opened Words
  import opened RegionTable
  import opened RegionLaws
  import opened Pmm
  import opened PageWalk
  import opened PageMapping
  import opened CallSteps
  import opened MapConditions

  /** The table after k one-page requests. */
  function Takes(t: Table, k: nat): Table
    decreases k
  {
    if k == 0 then t else Takes(Alloc(t, 0x1000), k - 1)
  }

  /** Index of the word that a call looks at in its j-th table, if it starts n levels below the
      root. */
  function Slot(ts: seq<nat>, n: nat, page: nat, j: nat): nat
    requires j < |ts| && n + j <= 3
  {
    512 * ts[j] + Digit(page, 3 - n - j)
  }

  ghost predicate InMemoryFrames(ts: seq<nat>, words: nat) {
    forall j :: 0 <= j < |ts| ==> 512 * ts[j] + 512 <= words
  }

  /** The first m slots were present and lead from table to table; the next one was not, unless
      no more tables were needed. */
  ghost predicate Followed(m0: Memory, ts: seq<nat>, m: nat, n: nat, page: nat, done: bool)
    requires m < |ts| && n + |ts| <= 4 && InMemoryFrames(ts, |m0|)
  {
    && (forall j :: 0 <= j < m ==> m0[Slot(ts, n, page, j)] % 2 == 1 && ts[j + 1] == m0[Slot(ts, n, page, j)] / 0x1000)
    && (m + 1 < |ts| || !done ==> m0[Slot(ts, n, page, m)] % 2 == 0)
  }

  /** Frame z is what a one-page request gets after k others. */
  predicate GrantedAs(t: Table, k: nat, z: nat) {
    Taken(Takes(t, k), 0x1000) && 0x1000 * z == TakenBase(Takes(t, k), 0x1000)
  }

  /** The pages are those that the allocator grants, one after the other. */
  ghost predicate GrantedPages(t: Table, t': Table, pages: seq<nat>, done: bool) {
    && (forall k :: 0 <= k < |pages| ==> GrantedAs(t, k, pages[k]))
    && t' == Takes(t, |pages|) && (!done ==> !Taken(t', 0x1000))
  }

  /** Each slot that got a table holds that page's address and the low twelve flag bits; the
      leaf slot holds e. */
  ghost predicate Linked(m1: Memory, ts: seq<nat>, m: nat, n: nat, page: nat, e: Word, flags: Word, done: bool)
    requires m < |ts| && n + |ts| <= 4 && InMemoryFrames(ts, |m1|)
  {
    && (forall j :: m <= j < |ts| - 1 ==> m1[Slot(ts, n, page, j)] == 0x1000 * ts[j + 1] + flags % 0x1000)
    && (done ==> m1[Slot(ts, n, page, |ts| - 1)] == e)
  }

  /** Word k is not written by the call: it is in no slot that got a table, nor the leaf slot. */
  ghost predicate Elsewhere(ts: seq<nat>, m: nat, n: nat, page: nat, done: bool, k: nat)
    requires m < |ts| && n + |ts| <= 4
  {
    && (forall j :: m <= j < |ts| - 1 ==> k != Slot(ts, n, page, j))
    && (done ==> k != Slot(ts, n, page, |ts| - 1))
  }

  ghost predicate InNewPage(ts: seq<nat>, m: nat, k: nat) {
    exists j :: m < j < |ts| && k / 512 == ts[j]
  }

  /** All other words are as before, except that the new pages are clear. */
  ghost predicate OthersAsBefore(m0: Memory, m1: Memory, ts: seq<nat>, m: nat, n: nat, page: nat, done: bool)
    requires m < |ts| && n + |ts| <= 4 && |m1| == |m0|
  {
    forall k: nat :: k < |m0| && Elsewhere(ts, m, n, page, done, k) ==>
      m1[k] == if InNewPage(ts, m, k) then 0 else m0[k]
  }

  ghost predicate CallWritten(w: World, w': World, done: bool, ts: seq<nat>, m: nat, n: nat, leaf: nat, page: nat,
                              e: Word, flags: Word)
  {
    && m < |ts| && n + leaf + |ts| <= 4 && (done <==> n + leaf + |ts| == 4)
    && |w'.mem| == |w.mem| && InMemoryFrames(ts, |w.mem|)
    && Followed(w.mem, ts, m, n, page, done) && GrantedPages(w.table, w'.table, ts[m + 1..], done)
    && Linked(w'.mem, ts, m, n, page, e, flags, done) && OthersAsBefore(w.mem, w'.mem, ts, m, n, page, done)
  }

  // ---------------------------------------------------------------- one level

  /** The words after one level: a present slot is followed; otherwise the page taken is clear,
      the slot holds its address and the low flag bits, and nothing else changes. */
  lemma {:induction false} LevelWords(w: World, t: nat, i: nat, flags: Word)
    requires Sane(w) && i < 512 && 512 * t + 512 <= |w.mem|
    ensures var (w', c) := EnsureTable(w, t, i, flags);
            var x := w.mem[512 * t + i];
            if x % 2 == 1 then w' == w && c == At(x / 0x1000)
            else if !Taken(w.table, 0x1000) then w' == w && c == Absent
            else
              var a := TakenBase(w.table, 0x1000);
              && a % 0x1000 == 0 && c == At(a / 0x1000) && a + 0x1000 <= 8 * |w.mem|
              && w'.table == Alloc(w.table, 0x1000) && |w'.mem| == |w.mem|
              && forall k: nat :: k < |w.mem| ==>
                   w'.mem[k] == if k == 512 * t + i then a + flags % 0x1000
                                else if k / 512 == a / 0x1000 then 0 else w.mem[k]
  {
    if w.mem[512 * t + i] % 2 != 1 && Taken(w.table, 0x1000) {
      TakenZero(w);
      var a := TakenBase(w.table, 0x1000);
      forall k: nat | k < |w.mem|
        ensures TakePage(w).0.mem[k] == if k / 512 == a / 0x1000 then 0 else w.mem[k]
      {
        AllocClears(w.mem, w.table, 0x1000, k);
        FrameWords(a, k);
      }
    }
  }

  lemma {:induction false} FrameWords(a: nat, k: nat)
    requires a % 0x1000 == 0
    ensures a <= 8 * k < a + 0x1000 <==> k / 512 == a / 0x1000
  {
    assert a == 0x1000 * (a / 0x1000);
  }

  // ---------------------------------------------------------------- frames in use

  /** Table t and every frame that a call follows below it are in memory and not free. */
  ghost predicate InUse(w: World, t: nat, level: nat, leaf: nat, page: nat)
    decreases level
  {
    && FrameInUse(w.table, t) && 512 * t + 512 <= |w.mem|
    && (level > leaf ==>
          var e := EntryAt(w.mem, t, Digit(page, level)); Present(e) ==> InUse(w, e / PAGE_SIZE, level - 1, leaf, page))
  }

  /** A page taken was free and is in use; what was in use stays so. */
  lemma {:induction false} TakenInUse(t: Table, z: nat)
    requires Valid(t) && Taken(t, 0x1000) && 0x1000 * z == TakenBase(t, 0x1000)
    ensures FrameWasFree(t, z) && FrameInUse(Alloc(t, 0x1000), z) && Valid(Alloc(t, 0x1000))
    ensures forall n :: FrameInUse(t, n) ==> FrameInUse(Alloc(t, 0x1000), n)
  {
    AllocExact(t, 0x1000);
    AllocValidIff(t, 0x1000);
    forall a | PAGE_SIZE * z <= a < PAGE_SIZE * z + PAGE_SIZE
      ensures FreeByte(t, a) && !FreeByte(Alloc(t, 0x1000), a)
    {
      assert InBlock((0x1000 * z, 0x1000), a);
    }
  }

  /** No page granted by the k-th of some requests was in use at the start. */
  lemma {:induction false} GrantedApart(t: Table, k: nat, z: nat, n: nat)
    requires Valid(t) && FrameInUse(t, n) && GrantedAs(t, k, z)
    ensures z != n
    decreases k
  {
    if k == 0 {
      TakenInUse(t, z);
      assert FreeByte(t, PAGE_SIZE * z);
    } else {
      AllocKeepsUse(t, n);
      GrantedApart(Alloc(t, 0x1000), k - 1, z, n);
    }
  }

  lemma {:induction false} AllocKeepsUse(t: Table, n: nat)
    requires Valid(t) && FrameInUse(t, n)
    ensures Valid(Alloc(t, 0x1000)) && FrameInUse(Alloc(t, 0x1000), n)
  {
    AllocValidIff(t, 0x1000);
    if Taken(t, 0x1000) { AllocExact(t, 0x1000); }
  }

  // ---------------------------------------------------------------- the call

  lemma {:induction false} LeafWords(w: World, n: nat, t: nat, leaf: nat, page: nat, e: Word, flags: Word)
    requires n + leaf == 3 && 512 * t + 512 <= |w.mem|
    ensures CallWritten(w, WriteLeaf(w, t, Digit(page, leaf), e), true, [t], 0, n, leaf, page, e, flags)
  {
    assert Slot([t], n, page, 0) == 512 * t + Digit(page, leaf);
  }

  lemma {:induction false} StoppedWords(w: World, n: nat, t: nat, leaf: nat, page: nat, e: Word, flags: Word)
    requires n + leaf < 3 && 512 * t + 512 <= |w.mem|
    requires w.mem[512 * t + Digit(page, 3 - n)] % 2 == 0 && !Taken(w.table, 0x1000)
    ensures CallWritten(w, w, false, [t], 0, n, leaf, page, e, flags)
  {
    assert Slot([t], n, page, 0) == 512 * t + Digit(page, 3 - n);
  }

  lemma {:induction false} SlotBelow(t: nat, ts: seq<nat>, n: nat, n': nat, page: nat)
    requires n' == n + 1 && n' + |ts| <= 4
    ensures forall j :: 0 < j <= |ts| ==> Slot([t] + ts, n, page, j) == Slot(ts, n', page, j - 1)
    ensures Slot([t] + ts, n, page, 0) == 512 * t + Digit(page, 3 - n)
  {
    forall j | 0 < j <= |ts|
      ensures Slot([t] + ts, n, page, j) == Slot(ts, n', page, j - 1)
    {
      assert ([t] + ts)[j] == ts[j - 1];
    }
  }

  lemma {:induction false} FollowSlots(m0: Memory, t: nat, ts: seq<nat>, m: nat, n: nat, page: nat, done: bool)
    requires m < |ts| && n + 1 + |ts| <= 4 && InMemoryFrames(ts, |m0|) && 512 * t + 512 <= |m0|
    requires Followed(m0, ts, m, n + 1, page, done)
    requires var x := m0[512 * t + Digit(page, 3 - n)]; x % 2 == 1 && ts[0] == x / 0x1000
    ensures InMemoryFrames([t] + ts, |m0|) && Followed(m0, [t] + ts, m + 1, n, page, done)
  {
    var us := [t] + ts;
    var n' := n + 1;
    SlotBelow(t, ts, n, n', page);
    forall j | 0 <= j < m + 1
      ensures m0[Slot(us, n, page, j)] % 2 == 1 && us[j + 1] == m0[Slot(us, n, page, j)] / 0x1000
    {
      if j > 0 { assert Slot(us, n, page, j) == Slot(ts, n + 1, page, j - 1); }
    }
  }

  lemma {:induction false} FollowLinked(m1: Memory, t: nat, ts: seq<nat>, m: nat, n: nat, page: nat, e: Word,
                                        flags: Word, done: bool)
    requires m < |ts| && n + 1 + |ts| <= 4 && InMemoryFrames(ts, |m1|) && 512 * t + 512 <= |m1|
    requires Linked(m1, ts, m, n + 1, page, e, flags, done)
    ensures InMemoryFrames([t] + ts, |m1|) && Linked(m1, [t] + ts, m + 1, n, page, e, flags, done)
  {
    var us := [t] + ts;
    var n' := n + 1;
    SlotBelow(t, ts, n, n', page);
    forall j | m + 1 <= j < |us| - 1
      ensures m1[Slot(us, n, page, j)] == 0x1000 * us[j + 1] + flags % 0x1000
    {
      assert Slot(us, n, page, j) == Slot(ts, n + 1, page, j - 1);
    }
    assert Slot(us, n, page, |us| - 1) == Slot(ts, n + 1, page, |ts| - 1);
  }

  lemma {:induction false} FollowOthers(m0: Memory, m1: Memory, t: nat, ts: seq<nat>, m: nat, n: nat, page: nat,
                                        done: bool)
    requires m < |ts| && n + 1 + |ts| <= 4 && |m1| == |m0| && OthersAsBefore(m0, m1, ts, m, n + 1, page, done)
    ensures OthersAsBefore(m0, m1, [t] + ts, m + 1, n, page, done)
  {
    var us := [t] + ts;
    forall k: nat | k < |m0| && Elsewhere(us, m + 1, n, page, done, k)
      ensures m1[k] == if InNewPage(us, m + 1, k) then 0 else m0[k]
    {
      ElsewhereBelow(t, ts, m, n, page, done, k);
      NewPageBelow(t, ts, m, k);
    }
  }

  /** A present slot is followed, and the rest of the call is as it is. */
  lemma {:induction false} FollowWords(w: World, w': World, done: bool, t: nat, ts: seq<nat>, m: nat, n: nat,
                                       leaf: nat, page: nat, e: Word, flags: Word)
    requires CallWritten(w, w', done, ts, m, n + 1, leaf, page, e, flags) && 512 * t + 512 <= |w.mem|
    requires var x := w.mem[512 * t + Digit(page, 3 - n)]; x % 2 == 1 && ts[0] == x / 0x1000
    ensures CallWritten(w, w', done, [t] + ts, m + 1, n, leaf, page, e, flags)
  {
    FollowSlots(w.mem, t, ts, m, n, page, done);
    assert ([t] + ts)[m + 2..] == ts[m + 1..];
    FollowLinked(w'.mem, t, ts, m, n, page, e, flags, done);
    FollowOthers(w.mem, w'.mem, t, ts, m, n, page, done);
  }

  lemma {:induction false} ElsewhereBelow(t: nat, ts: seq<nat>, m: nat, n: nat, page: nat, done: bool, k: nat)
    requires m < |ts| && n + 1 + |ts| <= 4 && Elsewhere([t] + ts, m + 1, n, page, done, k)
    ensures Elsewhere(ts, m, n + 1, page, done, k)
  {
    var n' := n + 1;
    SlotBelow(t, ts, n, n', page);
    forall j | m <= j < |ts| - 1
      ensures k != Slot(ts, n', page, j)
    {
      assert k != Slot([t] + ts, n, page, j + 1);
    }
  }

  lemma {:induction false} NewPageBelow(t: nat, ts: seq<nat>, m: nat, k: nat)
    ensures InNewPage([t] + ts, m + 1, k) <==> InNewPage(ts, m, k)
  {
    var us := [t] + ts;
    if InNewPage(us, m + 1, k) {
      var j :| m + 1 < j < |us| && k / 512 == us[j];
      assert us[j] == ts[j - 1];
    }
    if InNewPage(ts, m, k) {
      var j :| m < j < |ts| && k / 512 == ts[j];
      assert us[j + 1] == ts[j];
    }
  }

  /** What a level that takes a page makes of memory. */
  ghost predicate LevelWritten(w: World, w1: World, t: nat, i: nat, y: nat, flags: Word)
    requires 512 * t + i < |w.mem|
  {
    && Taken(w.table, 0x1000) && 0x1000 * y == TakenBase(w.table, 0x1000) && w1.table == Alloc(w.table, 0x1000)
    && |w1.mem| == |w.mem| && w.mem[512 * t + i] % 2 == 0 && w1.mem[512 * t + i] == 0x1000 * y + flags % 0x1000
    && forall k: nat :: k < |w.mem| && k != 512 * t + i ==> w1.mem[k] == if k / 512 == y then 0 else w.mem[k]
  }

  /** The rest of the call touches neither the slot just linked nor any other word of its frame. */
  lemma {:induction false} RestApart(w: World, w1: World, ts: seq<nat>, n: nat, page: nat, done: bool, t: nat, i: nat)
    requires Valid(w1.table) && ts != [] && n + |ts| <= 4 && ts[0] != t && FrameInUse(w1.table, t) && i < 512
    requires GrantedPages(w1.table, w.table, ts[1..], done)
    ensures Elsewhere(ts, 0, n, page, done, 512 * t + i) && !InNewPage(ts, 0, 512 * t + i)
  {
    forall j | 0 <= j < |ts|
      ensures ts[j] != t
    {
      if 0 < j {
        assert ts[1..][j - 1] == ts[j];
        GrantedApart(w1.table, j - 1, ts[j], t);
      }
    }
    assert (512 * t + i) / 512 == t;
    forall j | 0 <= j < |ts|
      ensures Slot(ts, n, page, j) != 512 * t + i
    {
      SlotFrame(ts, n, page, j);
    }
  }

  lemma {:induction false} SlotLinked(w: World, w1: World, w': World, ts: seq<nat>, n: nat, page: nat, flags: Word,
                                      done: bool, t: nat, i: nat)
    requires Valid(w1.table) && ts != [] && n + |ts| <= 4 && ts[0] != t && FrameInUse(w1.table, t) && i < 512
    requires 512 * t + 512 <= |w.mem| && LevelWritten(w, w1, t, i, ts[0], flags)
    requires GrantedPages(w1.table, w'.table, ts[1..], done) && |w'.mem| == |w.mem|
    requires OthersAsBefore(w1.mem, w'.mem, ts, 0, n, page, done)
    ensures w'.mem[512 * t + i] == 0x1000 * ts[0] + flags % 0x1000
  {
    RestApart(w', w1, ts, n, page, done, t, i);
  }

  lemma {:induction false} SlotFrame(ts: seq<nat>, n: nat, page: nat, j: nat)
    requires j < |ts| && n + j <= 3
    ensures Slot(ts, n, page, j) / 512 == ts[j]
  {
  }

  lemma {:induction false} LaterGrant(tb: Table, k: nat, z: nat)
    requires 0 < k && GrantedAs(Alloc(tb, 0x1000), k - 1, z)
    ensures GrantedAs(tb, k, z)
  {
    assert Takes(tb, k) == Takes(Alloc(tb, 0x1000), k - 1);
  }

  lemma {:induction false} LinkGranted(tb: Table, tb': Table, y: nat, pages: seq<nat>, done: bool)
    requires GrantedAs(tb, 0, y) && GrantedPages(Alloc(tb, 0x1000), tb', pages, done)
    ensures GrantedPages(tb, tb', [y] + pages, done)
  {
    var all := [y] + pages;
    forall k | 0 <= k < |all|
      ensures GrantedAs(tb, k, all[k])
    {
      if k > 0 { LaterGrant(tb, k, pages[k - 1]); }
    }
    assert Takes(tb, |all|) == Takes(Alloc(tb, 0x1000), |all| - 1);
  }

  lemma {:induction false} LinkPages(tb: Table, tb': Table, t: nat, ts: seq<nat>, done: bool)
    requires ts != [] && GrantedAs(tb, 0, ts[0]) && GrantedPages(Alloc(tb, 0x1000), tb', ts[1..], done)
    ensures GrantedPages(tb, tb', ([t] + ts)[1..], done)
  {
    LinkGranted(tb, tb', ts[0], ts[1..], done);
    assert ([t] + ts)[1..] == [ts[0]] + ts[1..];
  }

  lemma {:induction false} LinkLinked(m1: Memory, t: nat, ts: seq<nat>, n: nat, page: nat, e: Word, flags: Word,
                                      done: bool)
    requires ts != [] && n + 1 + |ts| <= 4 && InMemoryFrames(ts, |m1|) && 512 * t + 512 <= |m1|
    requires Linked(m1, ts, 0, n + 1, page, e, flags, done)
    requires m1[512 * t + Digit(page, 3 - n)] == 0x1000 * ts[0] + flags % 0x1000
    ensures InMemoryFrames([t] + ts, |m1|) && Linked(m1, [t] + ts, 0, n, page, e, flags, done)
  {
    var us := [t] + ts;
    var n' := n + 1;
    SlotBelow(t, ts, n, n', page);
    forall j | 0 <= j < |us| - 1
      ensures m1[Slot(us, n, page, j)] == 0x1000 * us[j + 1] + flags % 0x1000
    {
      if j > 0 { assert Slot(us, n, page, j) == Slot(ts, n + 1, page, j - 1); }
    }
    assert Slot(us, n, page, |us| - 1) == Slot(ts, n + 1, page, |ts| - 1);
  }

  lemma {:induction false} LinkOthers(w: World, w1: World, m': Memory, t: nat, ts: seq<nat>, n: nat, page: nat,
                                      flags: Word, done: bool)
    requires ts != [] && n + 1 + |ts| <= 4 && 512 * t + 512 <= |w.mem| == |m'|
    requires LevelWritten(w, w1, t, Digit(page, 3 - n), ts[0], flags)
    requires OthersAsBefore(w1.mem, m', ts, 0, n + 1, page, done)
    ensures OthersAsBefore(w.mem, m', [t] + ts, 0, n, page, done)
  {
    var us := [t] + ts;
    forall k: nat | k < |w.mem| && Elsewhere(us, 0, n, page, done, k)
      ensures m'[k] == if InNewPage(us, 0, k) then 0 else w.mem[k]
    {
      LinkElsewhere(t, ts, n, page, done, k);
      LinkNewPage(t, ts, k);
    }
  }

  lemma {:induction false} LinkFirst(m0: Memory, t: nat, ts: seq<nat>, n: nat, page: nat, done: bool)
    requires n + 1 + |ts| <= 4 && InMemoryFrames(ts, |m0|) && 512 * t + 512 <= |m0|
    requires m0[512 * t + Digit(page, 3 - n)] % 2 == 0
    ensures InMemoryFrames([t] + ts, |m0|) && Followed(m0, [t] + ts, 0, n, page, done)
  {
    SlotBelow(t, ts, n, n + 1, page);
  }

  /** A page is taken and linked, and the rest of the call goes on from the new page. */
  lemma {:induction false} LinkWords(w: World, w1: World, w': World, done: bool, t: nat, ts: seq<nat>, n: nat,
                                     leaf: nat, page: nat, e: Word, flags: Word)
    requires 512 * t + 512 <= |w.mem| && n + leaf < 3 && Valid(w1.table) && FrameInUse(w1.table, t)
    requires ts != [] && LevelWritten(w, w1, t, Digit(page, 3 - n), ts[0], flags) && ts[0] != t
    requires CallWritten(w1, w', done, ts, 0, n + 1, leaf, page, e, flags)
    ensures CallWritten(w, w', done, [t] + ts, 0, n, leaf, page, e, flags)
  {
    LinkFirst(w.mem, t, ts, n, page, done);
    SlotLinked(w, w1, w', ts, n + 1, page, flags, done, t, Digit(page, 3 - n));
    LinkPages(w.table, w'.table, t, ts, done);
    LinkLinked(w'.mem, t, ts, n, page, e, flags, done);
    LinkOthers(w, w1, w'.mem, t, ts, n, page, flags, done);
  }

  lemma {:induction false} LinkElsewhere(t: nat, ts: seq<nat>, n: nat, page: nat, done: bool, k: nat)
    requires ts != [] && n + 1 + |ts| <= 4 && Elsewhere([t] + ts, 0, n, page, done, k)
    ensures Elsewhere(ts, 0, n + 1, page, done, k) && k != 512 * t + Digit(page, 3 - n)
  {
    var n' := n + 1;
    SlotBelow(t, ts, n, n', page);
    assert k != Slot([t] + ts, n, page, 0);
    forall j | 0 <= j < |ts| - 1
      ensures k != Slot(ts, n', page, j)
    {
      assert k != Slot([t] + ts, n, page, j + 1);
    }
  }

  lemma {:induction false} LinkNewPage(t: nat, ts: seq<nat>, k: nat)
    requires ts != []
    ensures InNewPage([t] + ts, 0, k) <==> k / 512 == ts[0] || InNewPage(ts, 0, k)
  {
    var us := [t] + ts;
    if InNewPage(us, 0, k) {
      var j :| 0 < j < |us| && k / 512 == us[j];
      assert us[j] == ts[j - 1];
    }
    if InNewPage(ts, 0, k) {
      var j :| 0 < j < |ts| && k / 512 == ts[j];
      assert us[j + 1] == ts[j];
    }
    assert us[1] == ts[0];
  }

  /** The whole of a call from table t on: its tables ts, the first m of them followed, the
      others new. */
  lemma {:induction false} MapFromWords(w: World, n: nat, t: nat, leaf: nat, page: nat, e: Word, flags: Word)
    returns (ts: seq<nat>, m: nat)
    requires Sane(w) && n + leaf <= 3 && InUse(w, t, 3 - n, leaf, page)
    ensures var (w', done) := MapFrom(w, n, t, leaf, page, e, flags);
            CallWritten(w, w', done, ts, m, n, leaf, page, e, flags) && ts[0] == t
    decreases 3 - n, 1
  {
    if n + leaf == 3 {
      ts, m := [t], 0;
      LeafWords(w, n, t, leaf, page, e, flags);
    } else {
      LevelWords(w, t, Digit(page, 3 - n), flags);
      if Present(EntryAt(w.mem, t, Digit(page, 3 - n))) {
        ts, m := FollowedFromWords(w, n, t, leaf, page, e, flags);
      } else if Taken(w.table, 0x1000) {
        ts, m := LinkedFromWords(w, n, t, leaf, page, e, flags);
      } else {
        ts, m := [t], 0;
        MapFromStep(w, n, t, leaf, page, e, flags);
        StoppedWords(w, n, t, leaf, page, e, flags);
      }
    }
  }

  lemma {:induction false} FollowedFromWords(w: World, n: nat, t: nat, leaf: nat, page: nat, e: Word, flags: Word)
    returns (ts: seq<nat>, m: nat)
    requires Sane(w) && n + leaf < 3 && InUse(w, t, 3 - n, leaf, page) && Present(EntryAt(w.mem, t, Digit(page, 3 - n)))
    ensures var (w', done) := MapFrom(w, n, t, leaf, page, e, flags);
            CallWritten(w, w', done, ts, m, n, leaf, page, e, flags) && ts[0] == t
    decreases 3 - n, 0
  {
    var u := EntryAt(w.mem, t, Digit(page, 3 - n)) / PAGE_SIZE;
    MapFromStep(w, n, t, leaf, page, e, flags);
    var us, k := MapFromWords(w, n + 1, u, leaf, page, e, flags);
    ts, m := [t] + us, k + 1;
    var (w', done) := MapFrom(w, n + 1, u, leaf, page, e, flags);
    FollowWords(w, w', done, t, us, k, n, leaf, page, e, flags);
  }

  lemma {:induction false} LinkedFromWords(w: World, n: nat, t: nat, leaf: nat, page: nat, e: Word, flags: Word)
    returns (ts: seq<nat>, m: nat)
    requires Sane(w) && n + leaf < 3 && InUse(w, t, 3 - n, leaf, page)
    requires !Present(EntryAt(w.mem, t, Digit(page, 3 - n))) && Taken(w.table, 0x1000)
    ensures var (w', done) := MapFrom(w, n, t, leaf, page, e, flags);
            CallWritten(w, w', done, ts, m, n, leaf, page, e, flags) && ts[0] == t
    decreases 3 - n, 0
  {
    var (w1, c) := EnsureTable(w, t, Digit(page, 3 - n), flags);
    NewInUse(w, t, Digit(page, 3 - n), 2 - n, leaf, page, flags);
    var us, k := MapFromWords(w1, n + 1, c.frame, leaf, page, e, flags);
    ts, m := [t] + us, 0;
    MapFromStep(w, n, t, leaf, page, e, flags);
    var (w', done) := MapFrom(w1, n + 1, c.frame, leaf, page, e, flags);
    NoneFollowed(w, w1, w', done, t, us, k, n, leaf, page, e, flags);
    LinkWords(w, w1, w', done, t, us, n, leaf, page, e, flags);
  }

  /** The new page is in use, another frame than t, and empty. */
  lemma {:induction false} NewInUse(w: World, t: nat, i: nat, level: nat, leaf: nat, page: nat, flags: Word)
    requires Sane(w) && i < 512 && 512 * t + 512 <= |w.mem| && FrameInUse(w.table, t)
    requires !Present(EntryAt(w.mem, t, i)) && Taken(w.table, 0x1000)
    ensures var (w1, c) := EnsureTable(w, t, i, flags);
            && c.At? && c.frame != t && LevelWritten(w, w1, t, i, c.frame, flags)
            && InUse(w1, c.frame, level, leaf, page) && FrameInUse(w1.table, t) && Valid(w1.table)
  {
    LevelWords(w, t, i, flags);
    var (w1, c) := EnsureTable(w, t, i, flags);
    var y := c.frame;
    TakenInUse(w.table, y);
    assert GrantedAs(w.table, 0, y);
    GrantedApart(w.table, 0, y, t);
    assert EntryAt(w1.mem, y, Digit(page, level)) == 0 by { assert (512 * y + Digit(page, level)) / 512 == y; }
  }

  /** In an empty page there is nothing to follow. */
  lemma {:induction false} NoneFollowed(w: World, w1: World, w': World, done: bool, t: nat, ts: seq<nat>, m: nat,
                                        n: nat, leaf: nat, page: nat, e: Word, flags: Word)
    requires 512 * t + 512 <= |w.mem| && n + leaf < 3 && ts != [] && ts[0] != t
    requires LevelWritten(w, w1, t, Digit(page, 3 - n), ts[0], flags)
    requires CallWritten(w1, w', done, ts, m, n + 1, leaf, page, e, flags)
    ensures m == 0
  {
    SlotFrame(ts, n + 1, page, 0);
    assert w1.mem[Slot(ts, n + 1, page, 0)] == 0;
  }

  // ---------------------------------------------------------------- map_page

  /** On a path without large pages the frames followed are page tables, hence in use. */
  lemma {:induction false} TreeInUse(w: World, root: nat, n: nat, t: nat, leaf: nat, page: nat)
    requires Standing(w, root, n, t, leaf, page)
    ensures InUse(w, t, 3 - n, leaf, page)
    decreases 3 - n
  {
    TableInUse(w, root, n, t, leaf, page);
    if n + leaf < 3 && Present(EntryAt(w.mem, t, Digit(page, 3 - n))) {
      StandingNext(w, root, n, t, leaf, page);
      TreeInUse(w, root, n + 1, EntryAt(w.mem, t, Digit(page, 3 - n)) / PAGE_SIZE, leaf, page);
    }
  }

  lemma {:induction false} TableInUse(w: World, root: nat, n: nat, t: nat, leaf: nat, page: nat)
    requires Standing(w, root, n, t, leaf, page)
    ensures FrameInUse(w.table, t) && 512 * t + 512 <= |w.mem|
  {
    PathStep(page, n);
  }

  /** Every word after a call with any flags, from the root in frame `root` on. */
  lemma {:induction false} MapCallWords(w: World, root: nat, virt: Word, phys: Word, flags: Word)
    returns (ts: seq<nat>, m: nat, leaf: nat, e: Word)
    requires Sane(w) && InUse(w, root, 3, LeafOf(flags), PageOf(virt))
    ensures leaf == (if flags / 0x80 % 2 == 1 then 1 else 0)
    ensures e == phys - phys % (if leaf == 1 then 0x20_0000 else 0x1000) + flags % 0x1000
    ensures var (w', done) := MapCall(w, root, virt, phys, flags);
            CallWritten(w, w', done, ts, m, 0, leaf, PageOf(virt), e, flags) && ts[0] == root
  {
    leaf, e := LeafOf(flags), LeafEntry(phys, flags);
    MapCallLevels(w, root, virt, phys, flags);
    ts, m := MapFromWords(w, 0, root, leaf, PageOf(virt), e, flags);
  }

  lemma {:induction false} LaterApart(t: Table, t': Table, ts: seq<nat>, m: nat, n: nat, page: nat, done: bool, j: nat)
    requires Valid(t) && j < m < |ts| && n + |ts| <= 4 && GrantedPages(t, t', ts[m + 1..], done)
    requires FrameInUse(t, ts[j]) && ts[j] != ts[m]
    ensures Elsewhere(ts, m, n, page, done, Slot(ts, n, page, j)) && !InNewPage(ts, m, Slot(ts, n, page, j))
  {
    SlotFrame(ts, n, page, j);
    forall i | m <= i < |ts|
      ensures ts[i] != ts[j] && Slot(ts, n, page, i) != Slot(ts, n, page, j)
    {
      if m < i {
        assert ts[m + 1..][i - 1 - m] == ts[i];
        GrantedApart(t, i - 1 - m, ts[i], ts[j]);
      }
      SlotFrame(ts, n, page, i);
    }
  }

  /** A slot that was present keeps its word, unless the leaf is written into that very slot, as
      can happen only where a large page is followed. */
  lemma {:induction false} PresentKept(w: World, w': World, done: bool, ts: seq<nat>, m: nat, n: nat, leaf: nat,
                                       page: nat, e: Word, flags: Word, j: nat)
    requires CallWritten(w, w', done, ts, m, n, leaf, page, e, flags) && Sane(w) && j < m
    requires FrameInUse(w.table, ts[j]) && ts[j] != ts[m]
    ensures w'.mem[Slot(ts, n, page, j)] == w.mem[Slot(ts, n, page, j)]
  {
    LaterApart(w.table, w'.table, ts, m, n, page, done, j);
  }

  /** On a path without large pages the tables followed are those of the tree. */
  lemma {:induction false} StandingNext(w: World, root: nat, n: nat, t: nat, leaf: nat, page: nat)
    requires Standing(w, root, n, t, leaf, page) && n + leaf < 3 && Present(EntryAt(w.mem, t, Digit(page, 3 - n)))
    ensures Standing(w, root, n + 1, EntryAt(w.mem, t, Digit(page, 3 - n)) / PAGE_SIZE, leaf, page)
  {
    PathStep(page, n);
    FollowLevel(w, root, PathOf(page, n), t, Digit(page, 3 - n), 0);
  }

  lemma {:induction false} TraceOnTree(w: World, root: nat, ts: seq<nat>, m: nat, leaf: nat, page: nat, done: bool,
                                       j: nat)
    requires Inv(w, root) && NoLarge(w.mem, root, 3, leaf, page)
    requires j <= m < |ts| && leaf + |ts| <= 4 && InMemoryFrames(ts, |w.mem|) && ts[0] == root
    requires Followed(w.mem, ts, m, 0, page, done)
    ensures Standing(w, root, j, ts[j], leaf, page)
  {
    if j == 0 {
      assert PathOf(page, 0) == [];
    } else {
      TraceOnTree(w, root, ts, m, leaf, page, done, j - 1);
      TraceSlot(w.mem, ts, m, page, done, j - 1);
      StandingNext(w, root, j - 1, ts[j - 1], leaf, page);
    }
  }

  lemma {:induction false} TraceSlot(m0: Memory, ts: seq<nat>, m: nat, page: nat, done: bool, j: nat)
    requires j < m < |ts| <= 4 && InMemoryFrames(ts, |m0|) && Followed(m0, ts, m, 0, page, done)
    ensures var x := EntryAt(m0, ts[j], Digit(page, 3 - j)); Present(x) && ts[j + 1] == x / PAGE_SIZE
  {
    assert Slot(ts, 0, page, j) == 512 * ts[j] + Digit(page, 3 - j);
  }

  lemma {:induction false} TablesApart(w: World, root: nat, page: nat, leaf: nat, t: nat, u: nat, j: nat, k: nat)
    requires Standing(w, root, j, t, leaf, page) && Standing(w, root, k, u, leaf, page) && j < k
    ensures t != u && FrameInUse(w.table, t)
  {
    PathStep(page, j);
    PathStep(page, k);
    assert |PathOf(page, j)| != |PathOf(page, k)|;
  }

  /** On a path without large pages, whatever the flags, every slot that was present keeps its
      word. */
  lemma {:induction false} TreeCallWords(w: World, root: nat, virt: Word, phys: Word, flags: Word)
    returns (ts: seq<nat>, m: nat, leaf: nat, e: Word)
    requires Inv(w, root) && NoLarge(w.mem, root, 3, LeafOf(flags), PageOf(virt))
    ensures leaf == (if flags / 0x80 % 2 == 1 then 1 else 0)
    ensures e == phys - phys % (if leaf == 1 then 0x20_0000 else 0x1000) + flags % 0x1000
    ensures var (w', done) := MapCall(w, root, virt, phys, flags);
            && CallWritten(w, w', done, ts, m, 0, leaf, PageOf(virt), e, flags) && ts[0] == root
            && forall j: nat :: j < m ==> w'.mem[Slot(ts, 0, PageOf(virt), j)] == w.mem[Slot(ts, 0, PageOf(virt), j)]
  {
    var page := PageOf(virt);
    assert PathOf(page, 0) == [];
    TreeInUse(w, root, 0, root, LeafOf(flags), page);
    ts, m, leaf, e := MapCallWords(w, root, virt, phys, flags);
    var (w', done) := MapCall(w, root, virt, phys, flags);
    forall j: nat | j < m
      ensures w'.mem[Slot(ts, 0, page, j)] == w.mem[Slot(ts, 0, page, j)]
    {
      TraceOnTree(w, root, ts, m, leaf, page, done, j);
      TraceOnTree(w, root, ts, m, leaf, page, done, m);
      TablesApart(w, root, page, leaf, ts[j], ts[m], j, m);
      PresentKept(w, w', done, ts, m, 0, leaf, page, e, flags, j);
    }
  }
}
