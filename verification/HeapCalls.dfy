// The allocator's entry points as functions of the buffer, and the exact
// conditions under which each call does what its caller expects.

module HeapCalls {
  import opened HeapMemory
  import opened HeapBlocks
  import opened HeapUpdates
  import opened HeapFree
  import opened HeapRealloc

  // `Undefined` stands for a store or a load outside the buffer, or a header
  // written over one that is still being read; `Endless` for a search that never ends.
  datatype Outcome = Done(m: Memory, address: nat) | Undefined | Endless

  function Address(c: nat): nat { 8 * (c + HEADER) }

  function BlockOf(address: nat): int { address / 8 - HEADER }

  // A search may also run past the end of the buffer, meet a NULL `next`, or stay for
  // ever at a block that is its own successor. `Lost` is a header outside the buffer or a
  // `next` that leads back.
  datatype Search = Found(c: nat) | Exhausted | Corrupt | Circling | Lost

  predicate Fits(m: Memory, c: nat, bytes: nat)
    requires c + HEADER <= |m|
  {
    !Occupied(m[c]) && m[c + 1] as int - Ptr(c) >= bytes
  }

  // The search of lines 94-100.
  function FirstFit(m: Memory, c: nat, bytes: nat): Search
    decreases |m| - c
  {
    if c >= |m| then Exhausted
    else if c + HEADER > |m| then Lost
    else if Fits(m, c, bytes) then Found(c)
    else if m[c + 1] == 0 then Corrupt
    else if m[c + 1] == Ptr(c) then Circling
    else if c < Index(m[c + 1]) then FirstFit(m, Index(m[c + 1]), bytes)
    else Lost
  }

  // On a tiled heap the search ends, with the lowest block that fits.
  lemma {:induction false} FirstFitIsLowest(m: Memory, bs: seq<nat>, i: nat, bytes: nat)
    requires Tiles(m, bs) && i < |bs|
    ensures FirstFit(m, bs[i], bytes).Found? ==>
              exists j :: i <= j < |bs| - 1 && bs[j] == FirstFit(m, bs[i], bytes).c && Fits(m, bs[j], bytes)
                       && forall a :: i <= a < j ==> !Fits(m, bs[a], bytes)
    ensures !FirstFit(m, bs[i], bytes).Found? ==>
              FirstFit(m, bs[i], bytes) == Exhausted
              && forall a :: i <= a < |bs| - 1 ==> !Fits(m, bs[a], bytes)
    decreases |bs| - i
  {
    if i < |bs| - 1 {
      assert m[bs[i] + 1] == Ptr(bs[i + 1]);
      if !Fits(m, bs[i], bytes) {
        FirstFitIsLowest(m, bs, i + 1, bytes);
      }
    }
  }

  // Block j is free and has room for `bytes`, its header included.
  ghost predicate Free(m: Memory, bs: seq<nat>, j: nat, bytes: nat)
    requires Tiles(m, bs)
  {
    j < |bs| - 1 && !Occupied(m[bs[j]]) && 8 * (bs[j + 1] - bs[j]) >= bytes
  }

  // Every block before it is occupied or too small.
  ghost predicate LowestFree(m: Memory, bs: seq<nat>, j: nat, bytes: nat)
    requires Tiles(m, bs)
  {
    Free(m, bs, j, bytes)
    && forall a :: 0 <= a < j ==> Occupied(m[bs[a]]) || 8 * (bs[a + 1] - bs[a]) < bytes
  }

  // Told over the blocks: the search finds the lowest free one that is large enough, and
  // runs past the end exactly when there is none.
  lemma SearchExact(m: Memory, bs: seq<nat>, bytes: nat)
    requires Tiles(m, bs)
    ensures FirstFit(m, 0, bytes).Found? <==> exists j: nat :: Free(m, bs, j, bytes)
    ensures !FirstFit(m, 0, bytes).Found? ==> FirstFit(m, 0, bytes) == Exhausted
    ensures forall j: nat :: j < |bs| - 1 ==> (FirstFit(m, 0, bytes) == Found(bs[j]) <==> LowestFree(m, bs, j, bytes))
  {
    forall a: nat | a < |bs| - 1
      ensures bs[a] + HEADER <= |m| && (Fits(m, bs[a], bytes) <==> Free(m, bs, a, bytes))
    {
      assert m[bs[a] + 1] == Ptr(bs[a + 1]);
    }
    FirstFitIsLowest(m, bs, 0, bytes);
    hide FirstFit, Fits, Occupied;
    if FirstFit(m, 0, bytes).Found? {
      var k: nat :| k < |bs| - 1 && bs[k] == FirstFit(m, 0, bytes).c && Fits(m, bs[k], bytes)
                    && forall a :: 0 <= a < k ==> !Fits(m, bs[a], bytes);
      assert Free(m, bs, k, bytes);
      forall j: nat | j < |bs| - 1
        ensures FirstFit(m, 0, bytes) == Found(bs[j]) <==> LowestFree(m, bs, j, bytes)
      {
        OneLowest(m, bs, k, j, bytes);
      }
    } else {
      forall j: nat ensures !Free(m, bs, j, bytes) {
        if j < |bs| - 1 { assert !Fits(m, bs[j], bytes); }
      }
    }
  }

  lemma OneLowest(m: Memory, bs: seq<nat>, k: nat, j: nat, bytes: nat)
    requires Tiles(m, bs) && Free(m, bs, k, bytes) && j < |bs| - 1
    requires forall a: nat :: a < k ==> !Free(m, bs, a, bytes)
    ensures bs[k] == bs[j] <==> LowestFree(m, bs, j, bytes)
  {
    hide Occupied;
    if bs[k] == bs[j] {
      assert k == j;
      forall a | 0 <= a < j
        ensures Occupied(m[bs[a]]) || 8 * (bs[a + 1] - bs[a]) < bytes
      {
        assert !Free(m, bs, a, bytes);
      }
    }
  }

  //// VMHeapAlloc ////

  function VMHeapAlloc(m: Memory, size: nat): Outcome
    requires size < UINT32
  {
    if size == 0 then Done(m, 0) else ClaimFirstFit(m, RoundUp(size))
  }

  // The call from line 92 on, where `size` has been rounded up.
  function ClaimFirstFit(m: Memory, rounded: nat): Outcome {
    match FirstFit(m, 0, rounded + 24)
    case Found(c) =>
      if c + HEADER + rounded / 8 + HEADER <= |m| then Done(Claim(m, c, rounded / 8), Address(c)) else Undefined
    case Corrupt => Done(m, 0)
    case Circling => Endless
    case _ => Undefined
  }

  // The first block that fits has room for one more header, and the rounding did not wrap.
  predicate AllocRoom(m: Memory, size: nat)
    requires 0 < size < UINT32
  {
    size <= 0xFFFF_FFF0 &&
    match FirstFit(m, 0, RoundUp(size) + 24)
    case Found(c) => c + HEADER <= |m| && m[c + 1] as int - Ptr(c) >= RoundUp(size) + 48
    case _ => false
  }

  ghost predicate Allocated(m: Memory, live: set<nat>, r: Outcome, c: nat, size: nat) {
    && r.Done? && |r.m| == |m| && r.address == Address(c) && c !in live
    && WellFormed(r.m, live + {c}) && 8 * |Payload(r.m, c)| >= size
    && forall q :: q in live ==> Payload(r.m, q) == Payload(m, q)
  }

  lemma FoundTile(m: Memory, bs: seq<nat>, bytes: nat) returns (i: nat)
    requires Tiles(m, bs) && FirstFit(m, 0, bytes).Found?
    ensures i < |bs| - 1 && bs[i] == FirstFit(m, 0, bytes).c && Fits(m, bs[i], bytes)
    ensures m[bs[i] + 1] == Ptr(bs[i + 1])
  {
    FirstFitIsLowest(m, bs, 0, bytes);
    i :| 0 <= i < |bs| - 1 && bs[i] == FirstFit(m, 0, bytes).c && Fits(m, bs[i], bytes);
  }

  lemma ClaimWithRoom(m: Memory, bs: seq<nat>, live: set<nat>, m': Memory, words: nat, c: nat)
    requires Inv(m, bs, live) && words % HEADER == 0
    requires FirstFit(m, 0, 8 * words + 24) == Found(c)
    requires c + HEADER <= |m| && m[c + 1] as int - Ptr(c) >= 8 * words + 48
    requires Claimed(m, m', c, c + HEADER + words)
    ensures WellFormed(m', live + {c}) && c !in live && |Payload(m', c)| == words
    ensures forall q :: q in live ==> Payload(m', q) == Payload(m, q)
  {
    var i := FoundTile(m, bs, 8 * words + 24);
    ClaimSplits(m, bs, live, m', i, c + HEADER + words);
  }

  lemma RoomInside(m: Memory, bs: seq<nat>, words: nat, c: nat)
    requires Tiles(m, bs) && FirstFit(m, 0, 8 * words + 24) == Found(c)
    requires c + HEADER <= |m| && m[c + 1] as int - Ptr(c) >= 8 * words + 48
    ensures c + HEADER + words + HEADER <= |m|
  {
    var i := FoundTile(m, bs, 8 * words + 24);
    assert bs[i + 1] <= |m|;
  }

  lemma ExactTile(m: Memory, bs: seq<nat>, live: set<nat>, words: nat, c: nat) returns (i: nat)
    requires Inv(m, bs, live) && words % HEADER == 0
    requires FirstFit(m, 0, 8 * words + 24) == Found(c)
    requires c + HEADER + words + HEADER <= |m| && m[c + 1] as int - Ptr(c) < 8 * words + 48
    ensures Tiles(m, bs) && i < |bs| - 2 && bs[i] == c && bs[i + 1] == c + HEADER + words
  {
    hide FirstFit, Occupied, PrevInRange;
    i := FoundTile(m, bs, 8 * words + 24);
    assert bs[i] % HEADER == 0;
    assert i < |bs| - 2;
  }

  lemma ClaimWithoutRoom(m: Memory, bs: seq<nat>, live: set<nat>, words: nat, c: nat, live': set<nat>)
    requires Inv(m, bs, live) && words % HEADER == 0
    requires FirstFit(m, 0, 8 * words + 24) == Found(c)
    requires c + HEADER + words + HEADER <= |m| && m[c + 1] as int - Ptr(c) < 8 * words + 48
    ensures !WellFormed(Claim(m, c, words), live')
  {
    var i := ExactTile(m, bs, live, words, c);
    hide Claim, Inv, FirstFit, Occupied;
    if WellFormed(Claim(m, c, words), live') {
      var bs' :| Inv(Claim(m, c, words), bs', live');
      InvTiles(Claim(m, c, words), bs', live');
      ExactFitBreaks(m, bs, i, bs');
    }
  }

  lemma InvTiles(m: Memory, bs: seq<nat>, live: set<nat>)
    requires Inv(m, bs, live)
    ensures Tiles(m, bs)
  {
  }

  lemma RoundedWords(size: nat) returns (words: nat)
    requires 0 < size < UINT32
    ensures words == RoundUp(size) / 8 && RoundUp(size) == 8 * words
    ensures size <= 0xFFFF_FFF0 ==> words % HEADER == 0 && HEADER <= words && 8 * words >= size
    ensures size > 0xFFFF_FFF0 ==> words == 1
  {
    var q := (size - 1) / 24 + 1;
    words := if size <= 0xFFFF_FFF0 then 3 * q else 1;
    RoundUpExact(size);
    hide RoundUp;
    if size <= 0xFFFF_FFF0 { RoundUpIsQuotient(size); }
  }

  lemma RoundUpIsQuotient(size: nat)
    requires 0 < size <= 0xFFFF_FFF0
    ensures RoundUp(size) == 24 * ((size - 1) / 24 + 1)
  {
  }

  lemma ClaimSucceeds(m: Memory, bs: seq<nat>, live: set<nat>, words: nat, c: nat)
    requires Inv(m, bs, live) && words % HEADER == 0
    requires FirstFit(m, 0, 8 * words + 24) == Found(c)
    requires c + HEADER <= |m| && m[c + 1] as int - Ptr(c) >= 8 * words + 48
    ensures Allocated(m, live, ClaimFirstFit(m, 8 * words), c, 8 * words)
    ensures Claimed(m, ClaimFirstFit(m, 8 * words).m, c, c + HEADER + words)
    ensures |Payload(ClaimFirstFit(m, 8 * words).m, c)| == words
  {
    InvTiles(m, bs, live);
    hide FirstFit, Claim, Inv, Tiles, WellFormed, Payload, Claimed, Occupied, ClaimFirstFit;
    RoomInside(m, bs, words, c);
    ClaimIs(m, words, c);
    ClaimStores(m, c, words);
    ClaimWithRoom(m, bs, live, Claim(m, c, words), words, c);
  }

  lemma AllocSucceeds(m: Memory, bs: seq<nat>, live: set<nat>, size: nat) returns (c: nat)
    requires Inv(m, bs, live) && 0 < size < UINT32 && AllocRoom(m, size)
    ensures FirstFit(m, 0, RoundUp(size) + 24) == Found(c)
    ensures Allocated(m, live, VMHeapAlloc(m, size), c, size)
  {
    var words := RoundedWords(size);
    c := FirstFit(m, 0, RoundUp(size) + 24).c;
    ClaimSucceeds(m, bs, live, words, c);
  }

  lemma ClaimFails(m: Memory, bs: seq<nat>, live: set<nat>, words: nat, c: nat, size: nat)
    requires Inv(m, bs, live) && words % HEADER == 0
    requires forall f: nat :: FirstFit(m, 0, 8 * words + 24) == Found(f) && f + HEADER <= |m| ==>
                           m[f + 1] as int - Ptr(f) < 8 * words + 48
    ensures !Allocated(m, live, ClaimFirstFit(m, 8 * words), c, size)
  {
    InvTiles(m, bs, live);
    hide Inv, Tiles, ClaimFirstFit, Allocated;
    match FirstFit(m, 0, 8 * words + 24)
    case Found(f) =>
      hide FirstFit;
      ClaimIs(m, words, f);
      if f + HEADER + words + HEADER <= |m| {
        ClaimWithoutRoom(m, bs, live, words, f, live + {c});
        LostIsNotAllocated(m, live, Claim(m, f, words), Address(f), c, size);
      } else {
        UndefinedIsNotAllocated(m, live, c, size);
      }
    case _ =>
      NothingToClaim(m, bs, 8 * words);
      UndefinedIsNotAllocated(m, live, c, size);
  }

  lemma ClaimIs(m: Memory, words: nat, f: nat)
    requires FirstFit(m, 0, 8 * words + 24) == Found(f)
    ensures ClaimFirstFit(m, 8 * words) ==
            if f + HEADER + words + HEADER <= |m| then Done(Claim(m, f, words), Address(f)) else Undefined
  {
    hide FirstFit, Claim;
  }

  lemma LostIsNotAllocated(m: Memory, live: set<nat>, m': Memory, a: nat, c: nat, size: nat)
    requires !WellFormed(m', live + {c})
    ensures !Allocated(m, live, Done(m', a), c, size)
  {
  }

  lemma UndefinedIsNotAllocated(m: Memory, live: set<nat>, c: nat, size: nat)
    ensures !Allocated(m, live, Undefined, c, size)
  {
  }

  lemma NothingToClaim(m: Memory, bs: seq<nat>, rounded: nat)
    requires Tiles(m, bs) && !FirstFit(m, 0, rounded + 24).Found?
    ensures ClaimFirstFit(m, rounded) == Undefined
  {
    FirstFitIsLowest(m, bs, 0, rounded + 24);
    hide FirstFit, Claim, Fits;
  }

  lemma ClaimWrapped(m: Memory, bs: seq<nat>, live: set<nat>, c: nat)
    requires Tiles(m, bs)
    ensures ClaimFirstFit(m, 8).Done? && ClaimFirstFit(m, 8).address == Address(c) ==>
              |Payload(ClaimFirstFit(m, 8).m, c)| == 1
  {
    FirstFitIsLowest(m, bs, 0, 32);
    if FirstFit(m, 0, 32).Found? {
      var f := FirstFit(m, 0, 32).c;
      if f + HEADER + 1 + HEADER <= |m| {
        ClaimStores(m, f, 1);
      }
    }
  }

  // What VMGetHeapAllocSize means for a block: its payload and its header, in bytes.
  function AllocSize(m: Memory, c: nat): nat {
    8 * (|Payload(m, c)| + HEADER) % UINT32
  }

  lemma SizeIsBlock(m: Memory, live: set<nat>, c: nat)
    requires WellFormed(m, live) && c in live
    ensures c + HEADER <= |m| && m[c + 1] >= Ptr(c) && (m[c + 1] - Ptr(c)) % UINT32 == AllocSize(m, c)
  {
    var bs :| Inv(m, bs, live);
    var i := LiveBlock(m, bs, live, c);
    hide Inv, WellFormed, Payload;
    PayloadIs(m, c, bs[i + 1]);
  }

  // After an allocation it is the rounded request plus the header, up to the 32-bit wrap.
  lemma SizeAfterAlloc(m: Memory, live: set<nat>, size: nat)
    requires WellFormed(m, live) && 0 < size < UINT32 && AllocRoom(m, size)
    ensures var r := VMHeapAlloc(m, size);
            r.Done? && exists c :: r.address == Address(c) && AllocSize(r.m, c) == (RoundUp(size) + 24) % UINT32
  {
    var bs :| Inv(m, bs, live);
    var words := RoundedWords(size);
    hide Payload, Inv, FirstFit, RoundUp, ClaimFirstFit, AllocSize;
    SizeAfterClaim(m, bs, live, words, FirstFit(m, 0, 8 * words + 24).c);
  }

  lemma SizeAfterClaim(m: Memory, bs: seq<nat>, live: set<nat>, words: nat, c: nat)
    requires Inv(m, bs, live) && words % HEADER == 0
    requires FirstFit(m, 0, 8 * words + 24) == Found(c)
    requires c + HEADER <= |m| && m[c + 1] as int - Ptr(c) >= 8 * words + 48
    ensures var r := ClaimFirstFit(m, 8 * words);
            r.Done? && r.address == Address(c) && AllocSize(r.m, c) == (8 * words + 24) % UINT32
  {
    hide Payload, Inv, FirstFit, ClaimFirstFit, WellFormed;
    ClaimSucceeds(m, bs, live, words, c);
  }

  lemma AllocFails(m: Memory, bs: seq<nat>, live: set<nat>, size: nat, c: nat)
    requires Inv(m, bs, live) && 0 < size < UINT32 && !AllocRoom(m, size)
    ensures !Allocated(m, live, VMHeapAlloc(m, size), c, size)
  {
    var words := RoundedWords(size);
    hide Inv, FirstFit, RoundUp, ClaimFirstFit, Allocated, Tiles;
    if size <= 0xFFFF_FFF0 {
      ClaimFails(m, bs, live, words, c, size);
    } else {
      InvTiles(m, bs, live);
      ClaimWrapped(m, bs, live, c);
      SmallIsNotAllocated(m, live, ClaimFirstFit(m, 8 * words), c, size);
    }
  }

  lemma SmallIsNotAllocated(m: Memory, live: set<nat>, r: Outcome, c: nat, size: nat)
    requires r.Done? && r.address == Address(c) ==> |Payload(r.m, c)| == 1
    requires size > 8
    ensures !Allocated(m, live, r, c, size)
  {
  }

  // Told over the blocks: the lowest free block that is large enough has room for one more
  // header behind the request, which is small enough to be rounded without wrapping.
  ghost predicate RoomFor(m: Memory, bs: seq<nat>, size: nat)
    requires Tiles(m, bs) && 0 < size < UINT32
  {
    size <= 0xFFFF_FFF0
    && exists j: nat :: j < |bs| - 1 && LowestFree(m, bs, j, RoundUp(size) + 24)
                      && 8 * (bs[j + 1] - bs[j]) >= RoundUp(size) + 48
  }

  lemma RoomForExact(m: Memory, bs: seq<nat>, size: nat)
    requires Tiles(m, bs) && 0 < size < UINT32
    ensures AllocRoom(m, size) <==> RoomFor(m, bs, size)
  {
    hide RoundUp, FirstFit, LowestFree, Tiles;
    var bytes := RoundUp(size) + 24;
    SearchExact(m, bs, bytes);
    if AllocRoom(m, size) {
      var i := FoundTile(m, bs, bytes);
      RoomAtBlock(m, bs, size, i);
      assert LowestFree(m, bs, i, bytes);
    }
    if RoomFor(m, bs, size) {
      var j: nat :| j < |bs| - 1 && LowestFree(m, bs, j, bytes) && 8 * (bs[j + 1] - bs[j]) >= RoundUp(size) + 48;
      RoomAtBlock(m, bs, size, j);
    }
  }

  lemma RoomAtBlock(m: Memory, bs: seq<nat>, size: nat, j: nat)
    requires Tiles(m, bs) && 0 < size < UINT32 && j < |bs| - 1
    requires FirstFit(m, 0, RoundUp(size) + 24) == Found(bs[j])
    ensures AllocRoom(m, size) <==> size <= 0xFFFF_FFF0 && 8 * (bs[j + 1] - bs[j]) >= RoundUp(size) + 48
  {
    hide RoundUp, FirstFit;
    BlockSize(m, bs, j);
  }

  lemma BlockSize(m: Memory, bs: seq<nat>, j: nat)
    requires Tiles(m, bs) && j < |bs| - 1
    ensures bs[j] + HEADER <= |m| && m[bs[j] + 1] as int - Ptr(bs[j]) == 8 * (bs[j + 1] - bs[j])
  {
    assert m[bs[j] + 1] == Ptr(bs[j + 1]);
  }

  // What VMHeapAlloc finds in a new heap of n words: the request is served at the first
  // address exactly when it and two headers fit.
  lemma FreshAllocExact(n: nat, size: nat)
    requires n >= HEADER && 0 < size < UINT32
    ensures (exists c :: Allocated(FreshMemory(n), {}, VMHeapAlloc(FreshMemory(n), size), c, size))
       <==> size <= 0xFFFF_FFF0 && 8 * n >= RoundUp(size) + 48
    ensures size <= 0xFFFF_FFF0 && 8 * n >= RoundUp(size) + 48 ==>
              VMHeapAlloc(FreshMemory(n), size).Done? && VMHeapAlloc(FreshMemory(n), size).address == 24
  {
    FreshIsWellFormed(n);
    var m, bs := FreshMemory(n), [0, n];
    assert !Occupied(m[0]) && Tiles(m, bs) && bs[0] == 0 && bs[1] == n;
    AllocExact(m, {}, size);
    hide FreshMemory, RoundUp, Occupied, FirstFit;
    assert LowestFree(m, bs, 0, RoundUp(size) + 24) <==> 8 * n >= RoundUp(size) + 24;
    assert RoomFor(m, bs, size) <==> size <= 0xFFFF_FFF0 && 8 * n >= RoundUp(size) + 48;
    if RoomFor(m, bs, size) {
      var c := AllocSucceeds(m, bs, {}, size);
      SearchExact(m, bs, RoundUp(size) + 24);
    }
  }

  lemma AllocExact(m: Memory, live: set<nat>, size: nat)
    requires WellFormed(m, live) && 0 < size < UINT32
    ensures (exists c :: Allocated(m, live, VMHeapAlloc(m, size), c, size)) <==> AllocRoom(m, size)
    ensures forall bs :: Tiles(m, bs) ==> (AllocRoom(m, size) <==> RoomFor(m, bs, size))
  {
    forall bs | Tiles(m, bs) ensures AllocRoom(m, size) <==> RoomFor(m, bs, size) {
      RoomForExact(m, bs, size);
    }
    hide RoomFor;
    var bs :| Inv(m, bs, live);
    if AllocRoom(m, size) {
      var c := AllocSucceeds(m, bs, live, size);
    } else {
      forall c ensures !Allocated(m, live, VMHeapAlloc(m, size), c, size) {
        AllocFails(m, bs, live, size, c);
      }
    }
  }

  //// VMHeapFree ////

  function VMHeapFree(m: Memory, address: nat): Outcome {
    var c := BlockOf(address);
    if c >= 0 && Releasable(m, c) then Done(Release(m, c), address) else Undefined
  }

  ghost predicate Freed(m: Memory, live: set<nat>, r: Outcome, c: nat) {
    r.Done? && KeepsAll(m, r.m, live - {c})
  }

  lemma FreeExact(m: Memory, live: set<nat>, c: nat)
    requires WellFormed(m, live) && c in live
    ensures Releasable(m, c)
    ensures Freed(m, live, VMHeapFree(m, Address(c)), c) <==> PrevJoinSafe(m, live, c)
  {
    hide Inv, KeepsAll, Releasable, Release, PrevJoinSafe, VMHeapFree;
    var bs :| Inv(m, bs, live);
    ReleaseExact(m, bs, live, c);
    FreeIs(m, c);
  }

  lemma FreeIs(m: Memory, c: nat)
    requires Releasable(m, c)
    ensures VMHeapFree(m, Address(c)) == Done(Release(m, c), Address(c))
  {
    hide Releasable, Release;
    assert BlockOf(Address(c)) == c;
  }

  //// VMHeapRealloc ////

  function CopyWords(m: Memory, from: nat, to: nat, k: nat): (r: Memory)
    requires from + k <= |m| && to + k <= |m|
    ensures |r| == |m|
  {
    m[..to] + m[from..from + k] + m[to + k..]
  }

  function VMHeapRealloc(m: Memory, address: nat, size: nat): Outcome
    requires size < UINT32
  {
    if size == 0 then Done(m, 0) else
    var c := BlockOf(address);
    if c < 0 || !Releasable(m, c) then Undefined else
    var rounded := RoundUp(size);
    var reqSize := (rounded + 24) % UINT32;
    var next := Index(m[c + 1]);
    var currSize := 8 * (next - c) % UINT32;
    if reqSize == currSize then Done(m, address)
    else if reqSize < currSize || (!Occupied(m[next]) && m[next + 1] as int - Ptr(next) >= reqSize) then
      var n := c + reqSize / 8;
      if c + HEADER <= n && n + HEADER <= |m| then Done(Resize(m, c, n), address) else Undefined
    else
      Relocated(m, c, VMHeapAlloc(m, rounded))
  }

  // Lines 173-186: having allocated, copy the old payload and free.
  function Relocated(m: Memory, c: nat, r: Outcome): Outcome
    requires Releasable(m, c)
  {
    match r
    case Done(m1, a) => CopyAndFree(m1, c, Index(m[c + 1]) - c - HEADER, a)
    case _ => r
  }

  function CopyAndFree(m: Memory, c: nat, k: nat, address: nat): Outcome {
    if c + HEADER + k > |m| || address / 8 + k > |m| then Undefined
    else FreeAndReturn(CopyWords(m, c + HEADER, address / 8, k), c, address)
  }

  function FreeAndReturn(m: Memory, c: nat, address: nat): Outcome {
    match VMHeapFree(m, Address(c))
    case Done(r, _) => Done(r, address)
    case r => r
  }
}
