// When VMHeapRealloc does what its caller expects, told from the heap before the call.

module HeapReallocs {
  import opened HeapMemory
  import opened HeapBlocks
  import opened HeapUpdates
  import opened HeapFree
  import opened HeapRealloc
  import opened HeapCalls
  import opened HeapMoves
  import opened HeapRoom
  import opened HeapExactFit

  // Does this call allocate, copy and free, instead of staying in place?
  predicate Moves(m: Memory, c: nat, size: nat)
    requires Releasable(m, c) && 0 < size < UINT32
  {
    var next := Index(m[c + 1]);
    RoundUp(size) + 24 > 8 * (next - c)
    && (Occupied(m[next]) || (m[next + 1] as int - Ptr(next) < RoundUp(size) + 24))
  }

  // The place the allocation inside a moving call finds, and what the free after it needs.
  predicate MoveSafe(m: Memory, live: set<nat>, c: nat, size: nat)
    requires Releasable(m, c) && 0 < size < UINT32
  {
    match FirstFit(m, 0, RoundUp(size) + 24)
    case Found(f) => FitSafe(m, live, c, f, f + HEADER + RoundUp(size) / 8)
    case _ => false
  }

  predicate FitSafe(m: Memory, live: set<nat>, c: nat, f: nat, n: nat)
    requires Releasable(m, c) && f + HEADER <= n
  {
    f + HEADER <= |m|
    && if Index(m[f + 1]) == n then ExactSafe(m, live, c, n) else n + HEADER <= |m| && RoomSafe(m, live, c, f, n)
  }

  predicate ReallocSafe(m: Memory, live: set<nat>, c: nat, size: nat)
    requires Releasable(m, c) && 0 < size < UINT32
  {
    && size <= 0xFFFF_FFD8
    && if Moves(m, c, size) then MoveSafe(m, live, c, size)
       else RoundUp(size) + 24 == 8 * (Index(m[c + 1]) - c) || Index(m[c + 1]) !in live
  }

  lemma RoundUpTwice(size: nat)
    requires 0 < size <= 0xFFFF_FFF0
    ensures 0 < RoundUp(size) <= 0xFFFF_FFF0 && RoundUp(RoundUp(size)) == RoundUp(size)
  {
    RoundUpExact(size);
    RoundUpExact(RoundUp(size));
  }

  lemma Rounded(size: nat)
    requires 0 < size <= 0xFFFF_FFD8
    ensures RoundUp(RoundUp(size)) == RoundUp(size) && size <= RoundUp(size) <= 0xFFFF_FFD8
    ensures RoundUp(size) % 24 == 0
  {
    RoundUpTwice(size);
    RoundUpExact(size);
    assert 24 * 178956969 == 0xFFFF_FFD8;
  }

  //// Moving ////

  lemma FreeAfterCopy(m: Memory, live: set<nat>, c: nat, c2: nat, m1: Memory, m2: Memory, bs1: seq<nat>, size: nat)
    requires c in live && c2 !in live && |m1| == |m| && c2 + HEADER <= |m|
    requires Inv(m1, bs1, live + {c2}) && forall q :: q in live ==> Payload(m1, q) == Payload(m, q)
    requires |Payload(m, c)| <= |Payload(m1, c2)| && 8 * |Payload(m1, c2)| >= size
    requires forall x :: c2 + HEADER <= x < |m| && x < Index(m1[c2 + 1]) ==> m1[x] == m[x]
    requires Copied(m1, m2, c + HEADER, c2 + HEADER, |Payload(m, c)|)
    ensures Releasable(m2, c)
    ensures Reallocated(m, live, Done(Release(m2, c), Address(c2)), c, c2, size)
         == PrevJoinSafe(m2, live + {c2}, c)
  {
    MoveKeeps(m, live, c, c2, m1, m2, bs1);
    LiveIsReleasable(m2, bs1, live + {c2}, c);
    ReleaseStores(m2, c);
    ReleaseExact(m2, bs1, live + {c2}, c);
    MoveExact(m, live, c, c2, m1, m2, Release(m2, c), bs1, size);
  }

  lemma MovedInto(m: Memory, bs: seq<nat>, live: set<nat>, m1: Memory, m2: Memory, j: nat, n: nat, c: nat, size: nat)
    requires Inv(m, bs, live) && c in live && j < |bs| - 1 && !Occupied(m[bs[j]])
    requires n % HEADER == 0 && bs[j] + HEADER <= n && n + HEADER <= bs[j + 1]
    requires Claimed(m, m1, bs[j], n) && |Payload(m, c)| <= n - bs[j] - HEADER && size <= 8 * (n - bs[j] - HEADER)
    requires Copied(m1, m2, c + HEADER, bs[j] + HEADER, |Payload(m, c)|)
    ensures Inv(m2, Inserted(bs, j, n), live + {bs[j]}) && Releasable(m2, c)
    ensures Reallocated(m, live, Done(Release(m2, c), Address(bs[j])), c, bs[j], size)
         == PrevJoinSafe(m2, live + {bs[j]}, c)
  {
    hide Reallocated, Release, PrevJoinSafe, Releasable, Payload, Inv, Occupied, Claimed, Copied, Inserted, Index;
    var f, bs1 := bs[j], Inserted(bs, j, n);
    ClaimSplits(m, bs, live, m1, j, n);
    ClaimedWords(m, m1, f, n);
    MoveKeeps(m, live, c, f, m1, m2, bs1);
    FreeAfterCopy(m, live, c, f, m1, m2, bs1, size);
  }

  // A move into a block that leaves room for one more header.
  lemma RoomMove(m: Memory, bs: seq<nat>, live: set<nat>, j: nat, c: nat, words: nat, size: nat)
    requires Inv(m, bs, live) && c in live && j < |bs| - 1 && !Occupied(m[bs[j]]) && words % HEADER == 0
    requires FirstFit(m, 0, 8 * words + 24) == Found(bs[j]) && bs[j] + HEADER + words + HEADER <= bs[j + 1]
    requires Releasable(m, c) && Index(m[c + 1]) - c - HEADER <= words && size <= 8 * words
    ensures bs[j] + HEADER + words + HEADER <= |m|
    ensures var r := Relocated(m, c, ClaimFirstFit(m, 8 * words));
            Reallocated(m, live, r, c, bs[j], size) == RoomSafe(m, live, c, bs[j], bs[j] + HEADER + words)
  {
    hide Relocated, Reallocated, FirstFit, ClaimFirstFit, Release, PrevJoinSafe, RoomSafe, Releasable, Payload;
    hide Inv, Occupied, Claimed, Copied, Moved, Inserted, Index;
    var n := bs[j] + HEADER + words;
    Placing(m, bs, live, j, n, c);
    LiveLength(m, bs, live, c);
    var m1, m2 := MoveStores(m, c, bs[j], n, words);
    MovedInto(m, bs, live, m1, m2, j, n, c, size);
    RoomExact(m, bs, live, m2, j, n, c);
  }

  lemma ClaimedWords(m: Memory, m1: Memory, f: nat, n: nat)
    requires Claimed(m, m1, f, n)
    ensures f + HEADER <= |m| == |m1|
    ensures forall x :: f + HEADER <= x < |m| && x < Index(m1[f + 1]) ==> m1[x] == m[x]
  {
  }

  lemma MoveIsSafe(m: Memory, bs: seq<nat>, live: set<nat>, c: nat, words: nat, size: nat, f: nat)
    requires Inv(m, bs, live) && c in live && words % HEADER == 0 && size <= 8 * words
    requires Releasable(m, c) && Index(m[c + 1]) - c - HEADER <= words
    requires FirstFit(m, 0, 8 * words + 24) == Found(f)
    ensures var r := Relocated(m, c, ClaimFirstFit(m, 8 * words));
            Reallocated(m, live, r, c, f, size) <==> FitSafe(m, live, c, f, f + HEADER + words)
  {
    hide Relocated, Reallocated, FirstFit, ClaimFirstFit, Releasable, ExactSafe, RoomSafe;
    var j, e := FitPlace(m, bs, live, words, f);
    hide Inv, Occupied;
    if e == f + HEADER + words {
      ExactFitExact(m, bs, live, j, c, words, size);
    } else if f + HEADER + words + HEADER <= |m| {
      RoomMove(m, bs, live, j, c, words, size);
    } else {
      NoRoomAtAll(m, c, f, words);
      NotReallocated(m, live, c, f, size);
    }
  }

  lemma FitPlace(m: Memory, bs: seq<nat>, live: set<nat>, words: nat, f: nat) returns (j: nat, e: nat)
    requires Inv(m, bs, live) && words % HEADER == 0 && FirstFit(m, 0, 8 * words + 24) == Found(f)
    ensures j < |bs| - 1 && bs[j] == f && !Occupied(m[f]) && f + HEADER <= |m| && e == bs[j + 1]
    ensures Index(m[f + 1]) == e && f + HEADER + words <= e <= |m|
    ensures e != f + HEADER + words && f + HEADER + words + HEADER <= |m| ==> f + HEADER + words + HEADER <= e
  {
    hide FirstFit, Occupied, PrevInRange;
    InvMeans(m, bs, live);
    j := FoundTile(m, bs, 8 * words + 24);
    e := bs[j + 1];
    assert f % HEADER == 0 && (e < |m| ==> j + 1 < |bs| - 1 && e % HEADER == 0) && bs[j] + HEADER <= e <= |m|;
    hide Inv, Aligned, Tiles;
    PtrIndex(e);
    if e < |m| { HeadersApart(e, f + HEADER + words); }
  }

  //// Staying ////

  lemma InPlaceExact(m: Memory, bs: seq<nat>, live: set<nat>, c: nat, words: nat, size: nat)
    requires Inv(m, bs, live) && c in live && words % HEADER == 0 && size <= 8 * words
    requires Releasable(m, c) && Index(m[c + 1]) != c + HEADER + words && HEADER <= words
    requires c + HEADER + words < Index(m[c + 1]) || 8 * (words + HEADER) <= m[Index(m[c + 1]) + 1] as int - m[c + 1]
    ensures c + HEADER + words + HEADER <= |m|
    ensures Reallocated(m, live, Done(Resize(m, c, c + HEADER + words), Address(c)), c, c, size)
       <==> Index(m[c + 1]) !in live
  {
    hide Resize, Reallocated;
    var i := LiveBlock(m, bs, live, c);
    var n := c + HEADER + words;
    assert n + HEADER <= bs[i + 2];
    ResizeStores(m, c, n);
    ResizeExact(m, bs, live, Resize(m, c, n), i, n, size);
  }

  lemma SameExact(m: Memory, bs: seq<nat>, live: set<nat>, c: nat, size: nat)
    requires Inv(m, bs, live) && c in live && Releasable(m, c)
    requires size <= 8 * (Index(m[c + 1]) - c - HEADER)
    ensures Reallocated(m, live, Done(m, Address(c)), c, c, size)
  {
    assert live - {c} + {c} == live;
    var i := LiveBlock(m, bs, live, c);
  }

  lemma RoundedWords8(size: nat) returns (words: nat)
    requires 0 < size <= 0xFFFF_FFD8
    ensures RoundUp(size) == 8 * words && words % HEADER == 0 && HEADER <= words && size <= 8 * words
    ensures 8 * words <= 0xFFFF_FFD8 && RoundUp(8 * words) == 8 * words
  {
    words := RoundedWords(size);
    Rounded(size);
  }

  // Which path of VMHeapRealloc a request takes.
  lemma ReallocPath(m: Memory, c: nat, size: nat, words: nat)
    requires Releasable(m, c) && 0 < size <= 0xFFFF_FFD8 && |m| <= MAX_WORDS
    requires RoundUp(size) == 8 * words && RoundUp(8 * words) == 8 * words && 8 * words <= 0xFFFF_FFD8
    ensures var next := Index(m[c + 1]);
            var r := VMHeapRealloc(m, Address(c), size);
            if words + HEADER == next - c then r == Done(m, Address(c)) && !Moves(m, c, size)
            else if Moves(m, c, size) then
              && next - c < words + HEADER
              && VMHeapAlloc(m, RoundUp(size)) == ClaimFirstFit(m, 8 * words)
              && r == Relocated(m, c, ClaimFirstFit(m, 8 * words))
            else if c + HEADER + words + HEADER <= |m| then
              r == Done(Resize(m, c, c + HEADER + words), Address(c))
            else r == Undefined
  {
    hide Relocated, Resize, ClaimFirstFit, PrevInRange, Occupied, RoundUp;
  }

  lemma RoundUpWraps(size: nat)
    requires 0xFFFF_FFD8 < size < UINT32
    ensures (RoundUp(size) + 24) % UINT32 == (if size <= 0xFFFF_FFF0 then 8 else 32)
  {
    RoundUpExact(size);
    if size <= 0xFFFF_FFF0 {
      assert (size - 1) / 24 == 178956969;
    }
  }

  lemma ResizeLength(m: Memory, c: nat, n: nat)
    requires Releasable(m, c) && c + HEADER <= n && n + HEADER <= |m|
    ensures |Payload(Resize(m, c, n), c)| == n - c - HEADER
  {
    assert Resize(m, c, n)[c + 1] == Ptr(n);
  }

  // A request so large that its rounding or its header's size wraps gets one word at most.
  lemma ReallocWrapped(m: Memory, c: nat, c2: nat, size: nat)
    requires Releasable(m, c) && Index(m[c + 1]) >= c + 2 * HEADER && |m| <= MAX_WORDS
    requires 0xFFFF_FFD8 < size < UINT32
    ensures var r := VMHeapRealloc(m, Address(c), size);
            r.Done? && r.address == Address(c2) ==> |Payload(r.m, c2)| == 1
  {
    hide Relocated, Resize, Payload, PrevInRange, Occupied;
    RoundUpWraps(size);
    if size > 0xFFFF_FFF0 && c + 4 + HEADER <= |m| {
      ResizeLength(m, c, c + 4);
    }
  }

  lemma LiveLength(m: Memory, bs: seq<nat>, live: set<nat>, c: nat)
    requires Inv(m, bs, live) && c in live
    ensures Releasable(m, c) && |Payload(m, c)| == Index(m[c + 1]) - c - HEADER
    ensures |Payload(m, c)| % HEADER == 0 && m[c + 1] == Ptr(Index(m[c + 1]))
  {
    var i := LiveBlock(m, bs, live, c);
    assert PrevInRange(m[c + 2], c);
    hide Inv, PrevInRange;
    PayloadIs(m, c, bs[i + 1]);
    MultiplesApart(c, bs[i + 1]);
    hide Payload;
  }

  lemma MultiplesApart(c: nat, n: nat)
    requires c % HEADER == 0 && n % HEADER == 0 && c + HEADER <= n
    ensures (n - c - HEADER) % HEADER == 0 && Ptr(n) % 8 == 0 && Index(Ptr(n)) == n
  {
  }

  lemma NothingFits(m: Memory, bs: seq<nat>, live: set<nat>, c: nat, words: nat)
    requires Inv(m, bs, live) && Releasable(m, c) && !FirstFit(m, 0, 8 * words + 24).Found?
    ensures Relocated(m, c, ClaimFirstFit(m, 8 * words)) == Undefined
  {
    InvTiles(m, bs, live);
    NothingToClaim(m, bs, 8 * words);
  }

  lemma ReallocMoving(m: Memory, bs: seq<nat>, live: set<nat>, c: nat, size: nat, c2: nat)
    requires Inv(m, bs, live) && c in live && 0 < size <= 0xFFFF_FFD8 && |m| <= MAX_WORDS
    requires Releasable(m, c) && Moves(m, c, size)
    ensures Reallocated(m, live, VMHeapRealloc(m, Address(c), size), c, c2, size)
       <==> MoveSafe(m, live, c, size) && FirstFit(m, 0, RoundUp(size) + 24) == Found(c2)
  {
    hide VMHeapRealloc, VMHeapAlloc, Reallocated, FitSafe, ClaimFirstFit, Inv, RoundUp, Payload, Releasable;
    hide Relocated, FirstFit;
    var words := RoundedWords8(size);
    ReallocPath(m, c, size, words);
    match FirstFit(m, 0, RoundUp(size) + 24)
    case Found(f) =>
      MoveIsSafe(m, bs, live, c, words, size, f);
      MovedTo(m, live, c, words, f, c2, size);
    case _ =>
      NothingFits(m, bs, live, c, words);
      NotReallocated(m, live, c, c2, size);
  }

  // The address returned is the first fit's.
  lemma MovedTo(m: Memory, live: set<nat>, c: nat, words: nat, f: nat, c2: nat, size: nat)
    requires Releasable(m, c) && FirstFit(m, 0, 8 * words + 24) == Found(f)
    ensures Reallocated(m, live, Relocated(m, c, ClaimFirstFit(m, 8 * words)), c, c2, size) ==> c2 == f
  {
    hide FirstFit, Claim, CopyWords, Release, Payload, Releasable, WellFormed, Contents;
  }

  lemma NotReallocated(m: Memory, live: set<nat>, c: nat, c2: nat, size: nat)
    ensures !Reallocated(m, live, Undefined, c, c2, size)
  {
  }

  lemma ReallocStaying(m: Memory, bs: seq<nat>, live: set<nat>, c: nat, size: nat)
    requires Inv(m, bs, live) && c in live && 0 < size <= 0xFFFF_FFD8 && |m| <= MAX_WORDS
    requires Releasable(m, c) && !Moves(m, c, size)
    ensures VMHeapRealloc(m, Address(c), size).Done? ==> VMHeapRealloc(m, Address(c), size).address == Address(c)
    ensures Reallocated(m, live, VMHeapRealloc(m, Address(c), size), c, c, size)
       <==> (RoundUp(size) + 24 == 8 * (Index(m[c + 1]) - c) || Index(m[c + 1]) !in live)
  {
    hide VMHeapRealloc, VMHeapAlloc, Reallocated, Resize, Inv, RoundUp, Payload;
    var words := RoundedWords8(size);
    ReallocPath(m, c, size, words);
    LiveLength(m, bs, live, c);
    if words + HEADER == Index(m[c + 1]) - c {
      SameExact(m, bs, live, c, size);
    } else {
      InPlaceExact(m, bs, live, c, words, size);
    }
  }

  //// The condition over the blocks ////

  // The request fits block i as it is, or needs its end moved: back into the block, or
  // forward into a free one behind it that is large enough to replace it.
  ghost predicate Stays(m: Memory, bs: seq<nat>, i: nat, size: nat)
    requires Tiles(m, bs) && i < |bs| - 2 && 0 < size < UINT32
  {
    RoundUp(size) + 24 <= 8 * (bs[i + 1] - bs[i])
    || (!Occupied(m[bs[i + 1]]) && RoundUp(size) + 24 <= 8 * (bs[i + 2] - bs[i + 1]))
  }

  // Staying is safe when nothing moves, or the block behind is not live. Moving goes to the
  // lowest free block that is large enough, and is safe under the condition for one that
  // fits exactly, or for one that leaves room for another header.
  ghost predicate SafeFor(m: Memory, bs: seq<nat>, live: set<nat>, i: nat, size: nat)
    requires Tiles(m, bs) && i < |bs| - 2 && 0 < size < UINT32 && Releasable(m, bs[i])
  {
    size <= 0xFFFF_FFD8
    && if Stays(m, bs, i, size) then
         RoundUp(size) + 24 == 8 * (bs[i + 1] - bs[i]) || bs[i + 1] !in live
       else
         exists j: nat :: j < |bs| - 1 && LowestFree(m, bs, j, RoundUp(size) + 24)
                          && MovesInto(m, bs, live, bs[i], j, RoundUp(size) / 8)
  }

  ghost predicate MovesInto(m: Memory, bs: seq<nat>, live: set<nat>, c: nat, j: nat, words: nat)
    requires Tiles(m, bs) && j < |bs| - 1 && Releasable(m, c)
  {
    var n := bs[j] + HEADER + words;
    if bs[j + 1] == n then ExactSafe(m, live, c, n) else n + HEADER <= |m| && RoomSafe(m, live, c, bs[j], n)
  }

  lemma NextIs(m: Memory, bs: seq<nat>, i: nat)
    requires Tiles(m, bs) && i < |bs| - 1
    ensures bs[i] + HEADER <= bs[i + 1] <= |m| && m[bs[i] + 1] == Ptr(bs[i + 1]) && Index(m[bs[i] + 1]) == bs[i + 1]
  {
    assert m[bs[i] + 1] == Ptr(bs[i + 1]);
  }

  lemma StaysExact(m: Memory, bs: seq<nat>, i: nat, size: nat)
    requires Tiles(m, bs) && i < |bs| - 2 && 0 < size < UINT32 && Releasable(m, bs[i])
    ensures Moves(m, bs[i], size) <==> !Stays(m, bs, i, size)
  {
    NextIs(m, bs, i);
    NextIs(m, bs, i + 1);
    hide Tiles, Releasable, RoundUp, Occupied, Index;
  }

  lemma MoveAtBlock(m: Memory, bs: seq<nat>, live: set<nat>, c: nat, size: nat, j: nat)
    requires Tiles(m, bs) && Releasable(m, c) && 0 < size < UINT32 && j < |bs| - 1
    requires FirstFit(m, 0, RoundUp(size) + 24) == Found(bs[j])
    ensures MoveSafe(m, live, c, size) == MovesInto(m, bs, live, c, j, RoundUp(size) / 8)
  {
    NextIs(m, bs, j);
    hide FirstFit, RoundUp, ExactSafe, RoomSafe, Tiles, Releasable, Index;
  }

  lemma MoveExactOver(m: Memory, bs: seq<nat>, live: set<nat>, c: nat, size: nat)
    requires Tiles(m, bs) && Releasable(m, c) && 0 < size < UINT32
    ensures MoveSafe(m, live, c, size)
       <==> exists j: nat :: j < |bs| - 1 && LowestFree(m, bs, j, RoundUp(size) + 24)
                             && MovesInto(m, bs, live, c, j, RoundUp(size) / 8)
  {
    hide RoundUp, FirstFit, LowestFree, Tiles, MovesInto, Releasable, FitSafe;
    SearchExact(m, bs, RoundUp(size) + 24);
    if MoveSafe(m, live, c, size) {
      var j := FoundTile(m, bs, RoundUp(size) + 24);
      MoveAtBlock(m, bs, live, c, size, j);
      assert LowestFree(m, bs, j, RoundUp(size) + 24);
    }
    if j: nat :| j < |bs| - 1 && LowestFree(m, bs, j, RoundUp(size) + 24)
                 && MovesInto(m, bs, live, c, j, RoundUp(size) / 8) {
      MoveAtBlock(m, bs, live, c, size, j);
    }
  }

  lemma SafeForExact(m: Memory, bs: seq<nat>, live: set<nat>, i: nat, size: nat)
    requires Tiles(m, bs) && i < |bs| - 2 && 0 < size < UINT32 && Releasable(m, bs[i])
    ensures ReallocSafe(m, live, bs[i], size) <==> SafeFor(m, bs, live, i, size)
  {
    StaysExact(m, bs, i, size);
    MoveExactOver(m, bs, live, bs[i], size);
    NextIs(m, bs, i);
    hide MoveSafe, Moves, Stays, Tiles, Releasable, RoundUp, LowestFree, MovesInto, Index;
  }

  // VMHeapRealloc keeps its promise exactly when ReallocSafe holds.
  lemma ReallocExact(m: Memory, live: set<nat>, c: nat, size: nat)
    requires WellFormed(m, live) && c in live && 0 < size < UINT32 && |m| <= MAX_WORDS
    requires Releasable(m, c) && |Payload(m, c)| > 0
    ensures (exists c2 :: Reallocated(m, live, VMHeapRealloc(m, Address(c), size), c, c2, size))
       <==> ReallocSafe(m, live, c, size)
    ensures forall bs, i: nat :: Tiles(m, bs) && i < |bs| - 2 && bs[i] == c ==>
              (ReallocSafe(m, live, c, size) <==> SafeFor(m, bs, live, i, size))
  {
    SafeForAll(m, live, c, size);
    hide SafeFor, Tiles, ReallocSafe;
    ReallocOutcome(m, live, c, size);
  }

  lemma SafeForAll(m: Memory, live: set<nat>, c: nat, size: nat)
    requires Releasable(m, c) && 0 < size < UINT32
    ensures forall bs, i: nat :: Tiles(m, bs) && i < |bs| - 2 && bs[i] == c ==>
              (ReallocSafe(m, live, c, size) <==> SafeFor(m, bs, live, i, size))
  {
    hide Tiles, ReallocSafe, SafeFor;
    forall bs, i: nat | Tiles(m, bs) && i < |bs| - 2 && bs[i] == c
      ensures ReallocSafe(m, live, c, size) <==> SafeFor(m, bs, live, i, size)
    {
      SafeForExact(m, bs, live, i, size);
    }
  }

  lemma ReallocOutcome(m: Memory, live: set<nat>, c: nat, size: nat)
    requires WellFormed(m, live) && c in live && 0 < size < UINT32 && |m| <= MAX_WORDS
    requires Releasable(m, c) && |Payload(m, c)| > 0
    ensures (exists c2 :: Reallocated(m, live, VMHeapRealloc(m, Address(c), size), c, c2, size))
       <==> ReallocSafe(m, live, c, size)
  {
    hide VMHeapRealloc, RoundUp, Inv, FirstFit, FitSafe, Reallocated;
    var bs :| Inv(m, bs, live);
    var r := VMHeapRealloc(m, Address(c), size);
    LiveLength(m, bs, live, c);
    if size > 0xFFFF_FFD8 {
      forall c2 ensures !Reallocated(m, live, r, c, c2, size) {
        ReallocWrapped(m, c, c2, size);
        ServesSize(m, live, r, c, c2, size);
      }
    } else if Moves(m, c, size) {
      forall c2
        ensures Reallocated(m, live, r, c, c2, size)
           <==> MoveSafe(m, live, c, size) && FirstFit(m, 0, RoundUp(size) + 24) == Found(c2)
      {
        ReallocMoving(m, bs, live, c, size, c2);
      }
    } else {
      ReallocStaying(m, bs, live, c, size);
      assert Reallocated(m, live, r, c, c, size) ==> exists c2 :: Reallocated(m, live, r, c, c2, size);
      forall c2 ensures Reallocated(m, live, r, c, c2, size) ==> c2 == c {
        ServesSize(m, live, r, c, c2, size);
      }
    }
  }

  lemma ServesSize(m: Memory, live: set<nat>, r: Outcome, c: nat, c2: nat, size: nat)
    ensures Reallocated(m, live, r, c, c2, size) ==>
              r.Done? && r.address == Address(c2) && 8 * |Payload(r.m, c2)| >= size
  {
  }
}
