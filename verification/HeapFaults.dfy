// Runs from a new heap whose next call does harm, and one whose move into a block that
// fits exactly does none.

module HeapFaults {
  import opened Options
  import opened HeapMemory
  import opened HeapBlocks
  import opened HeapUpdates
  import opened HeapFree
  import opened HeapRealloc
  import opened HeapCalls
  import opened HeapReallocs
  import opened HeapRuns

  ghost predicate Header(m: Memory, c: nat, occupied: bool, next: nat, prev: nat) {
    && c + HEADER <= next <= |m| == 60
    && Occupied(m[c]) == occupied && m[c + 1] == Ptr(next) && m[c + 2] == prev
  }

  lemma ClaimHeader(m: Memory, c: nat, words: nat, next: nat, prev: nat)
    requires Header(m, c, false, next, prev) && c + HEADER + words + HEADER <= next && words % HEADER == 0
    ensures c + HEADER + words + HEADER <= |m|
    ensures var n := c + HEADER + words; var m' := Claim(m, c, words);
            && Header(m', c, true, n, prev) && Header(m', n, Occupied(m[n]), next, Ptr(c))
            && forall x :: 0 <= x < 60 && x != c && x != c + 1 && x != n + 1 && x != n + 2 ==> m'[x] == m[x]
  {
    ClaimStores(m, c, words);
  }

  lemma RunAlloc(m: Memory, live: set<nat>, qs: seq<Request>, words: nat, c: nat, next: nat,
                 prev: nat) returns (m': Memory)
    requires |qs| > 0 && qs[0] == Alloc(8 * words) && 0 < words < 100 && RoundUp(8 * words) == 8 * words
    requires words % HEADER == 0
    requires FirstFit(m, 0, 8 * words + 24) == Found(c)
    requires Header(m, c, false, next, prev) && c + HEADER + words + HEADER <= next
    ensures var n := c + HEADER + words;
            && Header(m', c, true, n, prev) && Header(m', n, Occupied(m[n]), next, Ptr(c))
            && forall x :: 0 <= x < 60 && x != c && x != c + 1 && x != n + 1 && x != n + 2 ==> m'[x] == m[x]
    ensures Run(m, live, qs) == Run(m', live + {c}, qs[1..])
  {
    hide Claim, RoundUp, WithOccupied, FirstFit, Run, Occupied;
    ClaimHeader(m, c, words, next, prev);
    m' := Claim(m, c, words);
    AnswerAlloc(m, words, c);
    RunOneAlloc(m, live, qs, m', c);
  }

  lemma RunOneAlloc(m: Memory, live: set<nat>, qs: seq<Request>, m': Memory, c: nat)
    requires |qs| > 0 && qs[0].Alloc? && 0 < qs[0].size < UINT32 && AllocRoom(m, qs[0].size)
    requires Serve(m, qs[0]) == Done(m', Address(c))
    ensures Run(m, live, qs) == Run(m', live + {c}, qs[1..])
  {
    hide Serve, AllocRoom;
    assert BlockOf(Address(c)) == c;
  }

  lemma AnswerAlloc(m: Memory, words: nat, c: nat)
    requires 0 < words < 100 && RoundUp(8 * words) == 8 * words
    requires FirstFit(m, 0, 8 * words + 24) == Found(c)
    requires c + HEADER <= |m| && c + HEADER + words + HEADER <= Index(m[c + 1]) <= |m|
    ensures AllocRoom(m, 8 * words)
    ensures Serve(m, Alloc(8 * words)) == Done(Claim(m, c, words), Address(c))
  {
    hide Claim, RoundUp, FirstFit;
  }

  lemma FreeHeader(m: Memory, c: nat, next: nat, prev: nat)
    requires Header(m, c, true, next, prev) && next + HEADER <= 60 && Occupied(m[next]) && c % HEADER == 0
    requires prev == 0 || (prev == Ptr(0) && 0 < c && Occupied(m[0]))
    ensures Releasable(m, c) && !JoinsPrev(m, c)
    ensures Header(Release(m, c), c, false, next, prev)
    ensures forall x :: 0 <= x < 60 && x != c ==> Release(m, c)[x] == m[x]
  {
    ReleaseStores(m, c);
  }

  // Freeing a block that joins nothing.
  lemma RunFree(m: Memory, live: set<nat>, qs: seq<Request>, c: nat, next: nat, prev: nat) returns (m': Memory)
    requires |qs| > 0 && qs[0] == Free(Address(c)) && c in live
    requires Header(m, c, true, next, prev) && next + HEADER <= 60 && Occupied(m[next]) && c % HEADER == 0
    requires prev == 0 || (prev == Ptr(0) && 0 < c && Occupied(m[0]))
    ensures Header(m', c, false, next, prev) && forall x :: 0 <= x < 60 && x != c ==> m'[x] == m[x]
    ensures Run(m, live, qs) == Run(m', live - {c}, qs[1..])
  {
    hide Release, Releasable;
    FreeHeader(m, c, next, prev);
    m' := Release(m, c);
    assert BlockOf(Address(c)) == c && Address(c) >= 24 && Address(c) % 8 == 0;
    assert Serve(m, qs[0]) == Done(m', Address(c));
  }

  // The search passes a block, or stops at it.
  lemma Passed(m: Memory, c: nat, occupied: bool, next: nat, prev: nat, bytes: nat)
    requires Header(m, c, occupied, next, prev) && (occupied || 8 * (next - c) < bytes)
    ensures FirstFit(m, c, bytes) == FirstFit(m, next, bytes)
  {
  }

  lemma Stopped(m: Memory, c: nat, next: nat, prev: nat, bytes: nat)
    requires Header(m, c, false, next, prev) && bytes <= 8 * (next - c)
    ensures FirstFit(m, c, bytes) == Found(c)
  {
  }

  //// A run that leaves its last free unsafe ////

  // A program that frees a block after the space before it has been reused.
  const REUSED: seq<Request> := [
    Alloc(120),       // block 0, 15 words
    Alloc(24),        // block 18; its prev is 0 from here on
    Free(24),         // block 0 again
    Alloc(24),        // block 0, 3 words
    Alloc(24),        // block 6, inside what used to be block 0
    Free(24)          // block 0 is free when block 18 is freed next
  ]

  // The heap after the first three requests, then after all six.
  ghost predicate Halfway(m: Memory) {
    && Header(m, 0, false, 18, 0) && Header(m, 18, true, 24, Ptr(0)) && Header(m, 24, false, 60, Ptr(18))
    && m[6] == m[12] == 0
  }

  ghost predicate Reused(m: Memory) {
    && Header(m, 0, false, 6, 0) && Header(m, 6, true, 12, Ptr(0)) && Header(m, 12, false, 18, Ptr(6))
    && Header(m, 18, true, 24, Ptr(0)) && Header(m, 24, false, 60, Ptr(18))
  }

  lemma FirstThree() returns (m: Memory)
    ensures Halfway(m)
    ensures Run(FreshMemory(60), {}, REUSED) == Run(m, {18}, REUSED[3..])
  {
    hide Run;
    var m0 := FreshMemory(60);
    assert Header(m0, 0, false, 60, 0);
    var m1 := RunAlloc(m0, {}, REUSED, 15, 0, 60, 0);
    assert m1[6] == m1[12] == 0 && !Occupied(m1[18]);
    hide FreshMemory;
    assert FirstFit(m1, 18, 48) == Found(18);
    var m2 := RunAlloc(m1, {0}, REUSED[1..], 3, 18, 60, Ptr(0));
    m := RunFree(m2, {0, 18}, REUSED[2..], 0, 18, 0);
    assert {0, 18} - {0} == {18} && {0} + {18} == {0, 18} && {} + {0} == {0};
    assert REUSED[1..][1..] == REUSED[2..] && REUSED[2..][1..] == REUSED[3..];
  }

  ghost predicate NearlyReused(m: Memory) {
    && Header(m, 0, true, 6, 0) && Header(m, 6, false, 18, Ptr(0))
    && Header(m, 18, true, 24, Ptr(0)) && Header(m, 24, false, 60, Ptr(18)) && m[12] == 0
  }

  lemma FourthAgain(m: Memory) returns (m': Memory)
    requires Halfway(m)
    ensures NearlyReused(m')
    ensures Run(m, {18}, REUSED[3..]) == Run(m', {0, 18}, REUSED[4..])
  {
    hide Run, RoundUp, FirstFit;
    RoundedExample();
    Stopped(m, 0, 18, 0, 48);
    m' := RunAlloc(m, {18}, REUSED[3..], 3, 0, 18, 0);
    assert {18} + {0} == {0, 18} && REUSED[3..][1..] == REUSED[4..];
  }

  lemma LastThree(m: Memory) returns (m': Memory)
    requires Halfway(m)
    ensures Reused(m')
    ensures Run(m, {18}, REUSED[3..]) == Some((m', {6, 18}))
  {
    hide Run, RoundUp, FirstFit;
    RoundedExample();
    var m1 := FourthAgain(m);
    Passed(m1, 0, true, 6, 0, 48);
    Stopped(m1, 6, 18, Ptr(0), 48);
    var m2 := RunAlloc(m1, {0, 18}, REUSED[4..], 3, 6, 18, Ptr(0));
    m' := RunFree(m2, {0, 6, 18}, REUSED[5..], 0, 6, 0);
    assert {0, 18} + {6} == {0, 6, 18} && {0, 6, 18} - {0} == {6, 18};
    assert REUSED[4..][1..] == REUSED[5..] && REUSED[5..][1..] == [];
    RunNothing(m', {6, 18});
  }

  // The next free, of block 18, follows its `prev` to block 0 and swallows the
  // live block 6: the payload at address 72 is handed out again.
  lemma FreeLosesLiveBlock()
    ensures var r := Run(FreshMemory(60), {}, REUSED);
            && r.Some? && var (m, live) := r.value;
            && Good(m, live) && live == {6, 18} && Releasable(m, 18)
            && !PrevJoinSafe(m, live, 18) && !WellFormed(Release(m, 18), {6})
  {
    hide Run, Good, FreshMemory, Refines, View, Release;
    var m := FirstThree();
    var m' := LastThree(m);
    FreshIsWellFormed(60);
    assert Good(FreshMemory(60), {}) by { GoodFresh(); }
    RunRefines(FreshMemory(60), {}, REUSED);
    GoodMeans(m', {6, 18});
    assert IsBlock(m', 0, 0);
    var bs :| Inv(m', bs, {6, 18});
    LiveIsReleasable(m', bs, {6, 18}, 18);
    ReleaseStores(m', 18);
    UnsafeByPrev(m', bs, {6, 18}, Release(m', 18), 18, 6);
    assert {6, 18} - {18} == {6};
  }

  lemma GoodFresh()
    ensures Good(FreshMemory(60), {})
  {
    FreshIsWellFormed(60);
  }

  lemma GoodMeans(m: Memory, live: set<nat>)
    requires Good(m, live)
    ensures WellFormed(m, live)
  {
  }

  //// A run whose next allocation loses the rest of the heap ////

  const LOST: seq<Request> := [Alloc(24), Alloc(24), Free(24)]

  lemma RunLost() returns (m: Memory)
    ensures Header(m, 0, false, 6, 0) && Header(m, 6, true, 12, Ptr(0))
    ensures Run(FreshMemory(60), {}, LOST) == Some((m, {6}))
  {
    hide Run, RoundUp, FirstFit, Occupied, Tail;
    RoundedExample();
    var m0 := FreshTail();
    Stopped(m0, 0, 60, 0, 48);
    var m1 := AllocBehind(m0, {}, LOST, 3, 0, 0);
    Passed(m1, 0, true, 6, 0, 48);
    Stopped(m1, 6, 60, Ptr(0), 48);
    var m2 := AllocBehind(m1, {0}, LOST[1..], 3, 6, Ptr(0));
    m := RunFree(m2, {0, 6}, LOST[2..], 0, 6, 0);
    assert {0, 6} - {0} == {6} && {0} + {6} == {0, 6} && {} + {0} == {0};
    assert LOST[1..][1..] == LOST[2..] && LOST[2..][1..] == [];
    RunNothing(m, {6});
  }

  // The heap from c on is one free block, never used.
  ghost predicate Tail(m: Memory, c: nat, prev: nat) {
    Header(m, c, false, 60, prev) && forall x :: c + HEADER <= x < 60 ==> m[x] == 0
  }

  lemma FreshTail() returns (m: Memory)
    ensures m == FreshMemory(60) && Tail(m, 0, 0) && Header(m, 0, false, 60, 0)
  {
    m := FreshMemory(60);
  }

  lemma AllocBehind(m: Memory, live: set<nat>, qs: seq<Request>, words: nat, c: nat, prev: nat) returns (m': Memory)
    requires |qs| > 0 && qs[0] == Alloc(8 * words) && 0 < words < 100 && RoundUp(8 * words) == 8 * words
    requires words % HEADER == 0 && FirstFit(m, 0, 8 * words + 24) == Found(c)
    requires Tail(m, c, prev) && c + HEADER + words + HEADER <= 60
    ensures Header(m', c, true, c + HEADER + words, prev)
    ensures Tail(m', c + HEADER + words, Ptr(c)) && Header(m', c + HEADER + words, false, 60, Ptr(c))
    ensures forall x :: 0 <= x < c || c + HEADER <= x < c + HEADER + words ==> m'[x] == m[x]
    ensures Run(m, live, qs) == Run(m', live + {c}, qs[1..])
  {
    hide RoundUp, FirstFit, Run;
    m' := RunAlloc(m, live, qs, words, c, 60, prev);
  }

  lemma RunNothing(m: Memory, live: set<nat>)
    ensures Run(m, live, []) == Some((m, live))
  {
  }

  lemma RoundedExample()
    ensures RoundUp(24) == 24 && RoundUp(48) == 48 && RoundUp(96) == 96
  {
  }

  // Block 0 fits exactly: the header behind it, of live block 6, becomes its own
  // successor. Nothing tiles the heap any more, and no later search ends.
  lemma AllocLosesTail()
    ensures var r := Run(FreshMemory(60), {}, LOST);
            && r.Some? && var (m, live) := r.value;
            && Good(m, live) && live == {6} && !AllocRoom(m, 24)
            && var a := VMHeapAlloc(m, 24);
            && a.Done? && a.address == Address(0) && (forall live' :: !WellFormed(a.m, live'))
            && forall bytes :: FirstFit(a.m, 0, bytes) == Circling
  {
    hide Run, Good, FreshMemory, RoundUp, Claim, Refines;
    var m := RunLost();
    GoodFresh();
    RunRefines(FreshMemory(60), {}, LOST);
    GoodMeans(m, {6});
    var bs :| Inv(m, bs, {6});
    RoundedExample();
    Stopped(m, 0, 6, 0, 48);
    ClaimStores(m, 0, 3);
    forall live' ensures !WellFormed(Claim(m, 0, 3), live') {
      ClaimWithoutRoom(m, bs, {6}, 3, 0, live');
    }
    forall bytes ensures FirstFit(Claim(m, 0, 3), 0, bytes) == Circling {
      assert FirstFit(Claim(m, 0, 3), 6, bytes) == Circling;
    }
  }

  //// A run whose next realloc drops a live block ////

  const SHRUNK: seq<Request> := [Alloc(48), Alloc(24)]

  lemma RunShrunk() returns (m: Memory)
    ensures Header(m, 0, true, 9, 0) && Header(m, 9, true, 15, Ptr(0)) && Header(m, 15, false, 60, Ptr(9))
    ensures Run(FreshMemory(60), {}, SHRUNK) == Some((m, {0, 9}))
  {
    hide Run, RoundUp, FirstFit, Occupied, Tail;
    RoundedExample();
    var m0 := FreshTail();
    Stopped(m0, 0, 60, 0, 72);
    var m1 := AllocBehind(m0, {}, SHRUNK, 6, 0, 0);
    Passed(m1, 0, true, 9, 0, 48);
    Stopped(m1, 9, 60, Ptr(0), 48);
    m := AllocBehind(m1, {0}, SHRUNK[1..], 3, 9, Ptr(0));
    assert {0} + {9} == {0, 9} && {} + {0} == {0};
    assert SHRUNK[1..][1..] == [];
    RunNothing(m, {0, 9});
  }

  // Block 0 shrinks by three words; the header written behind it leads past live block 9.
  lemma ShrinkLosesLiveBlock()
    ensures var r := Run(FreshMemory(60), {}, SHRUNK);
            && r.Some? && var (m, live) := r.value;
            && Good(m, live) && live == {0, 9} && Releasable(m, 0) && !ReallocSafe(m, live, 0, 24)
            && var a := VMHeapRealloc(m, Address(0), 24);
            && a.Done? && a.address == Address(0) && !WellFormed(a.m, {0, 9})
  {
    hide Run, Good, FreshMemory, RoundUp, Resize, Refines;
    var m := RunShrunk();
    GoodFresh();
    RunRefines(FreshMemory(60), {}, SHRUNK);
    GoodMeans(m, {0, 9});
    var bs :| Inv(m, bs, {0, 9});
    RoundedExample();
    LiveIsReleasable(m, bs, {0, 9}, 0);
    ShrinkAnswers(m);
    ShrinkDrops(m, bs);
  }

  lemma ShrinkAnswers(m: Memory)
    requires Header(m, 0, true, 9, 0) && Header(m, 9, true, 15, Ptr(0)) && RoundUp(24) == 24 && Releasable(m, 0)
    ensures VMHeapRealloc(m, Address(0), 24) == Done(Resize(m, 0, 6), Address(0))
    ensures !ReallocSafe(m, {0, 9}, 0, 24)
  {
    hide RoundUp, Resize, Relocated, Releasable;
  }

  lemma ShrinkDrops(m: Memory, bs: seq<nat>)
    requires Inv(m, bs, {0, 9}) && Header(m, 0, true, 9, 0) && Releasable(m, 0)
    ensures !WellFormed(Resize(m, 0, 6), {0, 9})
  {
    var i := LiveBlock(m, bs, {0, 9}, 0);
    assert bs[i + 1] == 9;
    hide Inv, Resize, Releasable, WellFormed;
    ResizeStores(m, 0, 6);
    ResizedUnsafe(m, bs, {0, 9}, Resize(m, 0, 6), i, 6);
  }

  //// A run whose next realloc moves into a block that fits exactly, and does no harm ////

  const MENDED: seq<Request> := [Alloc(96), Alloc(24), Alloc(24), Alloc(24), Free(24), Alloc(24), Free(144)]

  ghost predicate FourBlocks(m: Memory) {
    && Header(m, 0, true, 15, 0) && Header(m, 15, true, 21, Ptr(0)) && Header(m, 21, true, 27, Ptr(15))
    && Header(m, 27, true, 33, Ptr(21)) && m[6] == 0
  }

  lemma FirstTwo() returns (m: Memory)
    ensures Header(m, 0, true, 15, 0) && Header(m, 15, true, 21, Ptr(0)) && Tail(m, 21, Ptr(15)) && m[6] == 0
    ensures Run(FreshMemory(60), {}, MENDED) == Run(m, {0, 15}, MENDED[2..])
  {
    hide Run, RoundUp, FirstFit, Occupied;
    RoundedExample();
    var m0 := FreshTail();
    Stopped(m0, 0, 60, 0, 120);
    var m1 := AllocBehind(m0, {}, MENDED, 12, 0, 0);
    hide Tail;
    Passed(m1, 0, true, 15, 0, 48);
    Stopped(m1, 15, 60, Ptr(0), 48);
    m := AllocBehind(m1, {0}, MENDED[1..], 3, 15, Ptr(0));
    assert {} + {0} == {0} && {0} + {15} == {0, 15} && MENDED[1..][1..] == MENDED[2..];
  }

  lemma ThirdFound(m: Memory)
    requires Header(m, 0, true, 15, 0) && Header(m, 15, true, 21, Ptr(0)) && Header(m, 21, false, 60, Ptr(15))
    ensures FirstFit(m, 0, 48) == Found(21)
  {
    hide FirstFit, Header;
    Passed(m, 0, true, 15, 0, 48);
    Passed(m, 15, true, 21, Ptr(0), 48);
    Stopped(m, 21, 60, Ptr(15), 48);
  }

  lemma FourthFound(m: Memory)
    requires Header(m, 0, true, 15, 0) && Header(m, 15, true, 21, Ptr(0)) && Header(m, 21, true, 27, Ptr(15))
    requires Header(m, 27, false, 60, Ptr(21))
    ensures FirstFit(m, 0, 48) == Found(27)
  {
    hide FirstFit, Header;
    Passed(m, 0, true, 15, 0, 48);
    Passed(m, 15, true, 21, Ptr(0), 48);
    Passed(m, 21, true, 27, Ptr(15), 48);
    Stopped(m, 27, 60, Ptr(21), 48);
  }

  lemma NextOne(m: Memory) returns (m': Memory)
    requires Header(m, 0, true, 15, 0) && Header(m, 15, true, 21, Ptr(0)) && Tail(m, 21, Ptr(15)) && m[6] == 0
    ensures Header(m', 0, true, 15, 0) && Header(m', 15, true, 21, Ptr(0)) && Header(m', 21, true, 27, Ptr(15))
    ensures Tail(m', 27, Ptr(21)) && m'[6] == 0
    ensures Run(m, {0, 15}, MENDED[2..]) == Run(m', {0, 15, 21}, MENDED[3..])
  {
    assert Header(m, 21, false, 60, Ptr(15));
    hide Run, RoundUp, FirstFit, Occupied, Tail;
    RoundedExample();
    ThirdFound(m);
    m' := AllocBehind(m, {0, 15}, MENDED[2..], 3, 21, Ptr(15));
    assert {0, 15} + {21} == {0, 15, 21} && MENDED[2..][1..] == MENDED[3..];
  }

  lemma LastOne(m: Memory) returns (m': Memory)
    requires Header(m, 0, true, 15, 0) && Header(m, 15, true, 21, Ptr(0)) && Header(m, 21, true, 27, Ptr(15))
    requires Tail(m, 27, Ptr(21)) && m[6] == 0
    ensures FourBlocks(m')
    ensures Run(m, {0, 15, 21}, MENDED[3..]) == Run(m', {0, 15, 21, 27}, MENDED[4..])
  {
    assert Header(m, 27, false, 60, Ptr(21));
    hide Run, RoundUp, FirstFit, Occupied, Tail;
    RoundedExample();
    FourthFound(m);
    m' := AllocBehind(m, {0, 15, 21}, MENDED[3..], 3, 27, Ptr(21));
    assert {0, 15, 21} + {27} == {0, 15, 21, 27} && MENDED[3..][1..] == MENDED[4..];
  }

  lemma LastOfMended(m: Memory) returns (m': Memory)
    requires FourBlocks(m)
    ensures Header(m', 0, true, 6, 0) && Header(m', 6, false, 15, Ptr(0)) && Header(m', 15, false, 21, Ptr(0))
    ensures Header(m', 21, true, 27, Ptr(15)) && Header(m', 27, true, 33, Ptr(21))
    ensures Run(m, {0, 15, 21, 27}, MENDED[4..]) == Some((m', {0, 21, 27}))
  {
    hide Run, RoundUp, FirstFit;
    RoundedExample();
    var m1 := RunFree(m, {0, 15, 21, 27}, MENDED[4..], 0, 15, 0);
    Stopped(m1, 0, 15, 0, 48);
    var m2 := RunAlloc(m1, {15, 21, 27}, MENDED[5..], 3, 0, 15, 0);
    m' := RunFree(m2, {0, 15, 21, 27}, MENDED[6..], 15, 21, Ptr(0));
    assert {0, 15, 21, 27} - {0} == {15, 21, 27} && {15, 21, 27} + {0} == {0, 15, 21, 27};
    assert {0, 15, 21, 27} - {15} == {0, 21, 27};
    assert MENDED[4..][1..] == MENDED[5..] && MENDED[5..][1..] == MENDED[6..] && MENDED[6..][1..] == [];
    RunNothing(m', {0, 21, 27});
  }

  // Block 21 moves into block 6, which fits exactly. The claim makes the free header at
  // 15 its own successor; freeing block 21, whose `prev` is 15, mends it.
  lemma ExactFitMoves()
    ensures var r := Run(FreshMemory(60), {}, MENDED);
            && r.Some? && var (m, live) := r.value;
            && Good(m, live) && live == {0, 21, 27} && Releasable(m, 21)
            && Moves(m, 21, 48) && !AllocRoom(m, 48) && ReallocSafe(m, live, 21, 48)
  {
    hide Run, Good, FreshMemory, RoundUp, Refines;
    var m2 := FirstTwo();
    var m3 := NextOne(m2);
    var m := LastOne(m3);
    var m' := LastOfMended(m);
    GoodFresh();
    RunRefines(FreshMemory(60), {}, MENDED);
    GoodMeans(m', {0, 21, 27});
    var bs :| Inv(m', bs, {0, 21, 27});
    LiveIsReleasable(m', bs, {0, 21, 27}, 21);
    RoundedExample();
    Passed(m', 0, true, 6, 0, 72);
    Stopped(m', 6, 15, Ptr(0), 72);
  }
}
