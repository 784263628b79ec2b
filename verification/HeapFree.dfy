// When VMHeapFree is safe, exactly.

module HeapFree {
  import opened HeapMemory
  import opened HeapBlocks
  import opened HeapUpdates

  // The heap is still well formed and every block in `live` has its payload.
  ghost predicate KeepsAll(m: Memory, m': Memory, live: set<nat>) {
    WellFormed(m', live) && forall q :: q in live ==> Payload(m', q) == Payload(m, q)
  }

  lemma LiveIsReleasable(m: Memory, bs: seq<nat>, live: set<nat>, c: nat)
    requires Inv(m, bs, live) && c in live
    ensures Releasable(m, c) && c % HEADER == 0
  {
    var i := LiveBlock(m, bs, live, c);
    assert PrevInRange(m[bs[i] + 2], bs[i]);
    PtrIndex(bs[i + 1]);
    hide Inv, PrevInRange, Index, Ptr;
  }

  // The word a join writes is not one of another live block's.
  lemma JoinMisses(m: Memory, bs: seq<nat>, live: set<nat>, c: nat, q: nat, e: nat)
    requires Inv(m, bs, live) && c in live && q in live && q != c && e == Index(m[q + 1]) && q + HEADER <= |m|
    requires Releasable(m, c) && PrevJoinSafe(m, live, c) && JoinsPrev(m, c)
    ensures var k := Index(m[c + 2]);
            0 <= k && k + 1 < |m| && (m[k + 1] == m[c + 1] || k + 1 < q || e <= k + 1)
  {
    var a := LiveBlock(m, bs, live, q);
    var k := PrevIndex(m, c);
    assert Occupied(m[q]) && Tiles(m, bs);
    hide Occupied, Ptr, Index, PrevInRange;
    HeadersApart(k, q);
    HeadersApart(k, e);
    IsBlockIsTile(m, bs, 0, k);
    if IsBlock(m, 0, k) {
      var j :| 0 <= j < |bs| - 1 && bs[j] == k;
      Apart(m, bs, j, a);
    } else {
      assert bs[a] != k;
    }
  }

  lemma PrevIndex(m: Memory, c: nat) returns (k: nat)
    requires Releasable(m, c) && JoinsPrev(m, c)
    ensures k == Index(m[c + 2]) && k < c && k % HEADER == 0 && c + HEADER <= |m| && !Occupied(m[k])
  {
    k :| k < c && k % HEADER == 0 && m[c + 2] == Ptr(k);
    PtrIndex(k);
  }

  lemma ReleasedKeeps(m: Memory, bs: seq<nat>, live: set<nat>, m': Memory, c: nat, q: nat)
    requires Inv(m, bs, live) && c in live && Released(m, m', c) && PrevJoinSafe(m, live, c)
    requires q in live && q != c
    ensures q < |m'| && Occupied(m'[q]) && Payload(m', q) == Payload(m, q)
  {
    var i := LiveBlock(m, bs, live, c);
    var a := LiveBlock(m, bs, live, q);
    assert Occupied(m[q]);
    var e := bs[a + 1];
    Apart(m, bs, i, a);
    if JoinsPrev(m, c) { JoinMisses(m, bs, live, c, q, e); }
    hide Inv, PrevJoinSafe, Occupied, Payload, Index;
    NotReleased(m, m', c, q, e);
    hide Released;
    Untouched(m, bs, live, m', q);
  }

  // Words outside the freed header that no join writes.
  lemma NotReleased(m: Memory, m': Memory, c: nat, q: nat, e: nat)
    requires Released(m, m', c) && e <= |m| && (e <= c || c + HEADER <= q)
    requires JoinsPrev(m, c) ==>
               var k := Index(m[c + 2]); 0 <= k && k + 1 < |m| && (m[k + 1] == m[c + 1] || k + 1 < q || e <= k + 1)
    ensures |m'| == |m| && forall x :: q <= x < e ==> m'[x] == m[x]
  {
    hide JoinsPrev, Index;
  }

  lemma InvRemoved(m: Memory, bs: seq<nat>, live: set<nat>, m': Memory, i: nat, j: nat, live': set<nat>)
    requires Inv(m, bs, live) && live' <= live && 0 < i <= j < |bs| - 1
    requires Tiles(m', Removed(bs, i, j)) && Aligned(m', Removed(bs, i, j))
    requires forall q :: q in live' ==> q < |m'| && Occupied(m'[q])
    requires forall a :: i <= a < j ==> bs[a] !in live'
    ensures Inv(m', Removed(bs, i, j), live')
  {
    forall q | q in live' ensures Heads(Removed(bs, i, j), q) {
      var a := LiveBlock(m, bs, live, q);
      HeadsRemoved(bs, i, j, q, a);
    }
  }

  // The same when the last block of all is what is swallowed, by block i.
  lemma InvRemovedLast(m: Memory, bs: seq<nat>, live: set<nat>, m': Memory, i: nat, live': set<nat>)
    requires Inv(m, bs, live) && live' <= live && i == |bs| - 3
    requires Tiles(m', Removed(bs, i + 1, i + 2)) && Aligned(m', Removed(bs, i + 1, i + 2))
    requires forall q :: q in live' ==> q < |m'| && Occupied(m'[q])
    requires bs[i] !in live'
    ensures Inv(m', Removed(bs, i + 1, i + 2), live')
  {
    forall q | q in live' ensures Heads(Removed(bs, i + 1, i + 2), q) {
      var a := LiveBlock(m, bs, live, q);
      HeadsRemoved(bs, i + 1, i + 2, q, a);
    }
  }

  // `prev` found in the tiling.
  lemma PrevTile(m: Memory, bs: seq<nat>, i: nat) returns (j: nat)
    requires Tiles(m, bs) && Aligned(m, bs) && i < |bs| - 2
    requires JoinsPrev(m, bs[i]) && IsBlock(m, 0, Index(m[bs[i] + 2]))
    ensures j < i && bs[j] == Index(m[bs[i] + 2])
  {
    IsBlockIsTile(m, bs, 0, Index(m[bs[i] + 2]));
    j :| 0 <= j < |bs| - 1 && bs[j] == Index(m[bs[i] + 2]);
  }

  lemma SafeByPrev(m: Memory, bs: seq<nat>, live: set<nat>, m': Memory, i: nat, j: nat)
    requires Inv(m, bs, live) && j < i < |bs| - 2 && Released(m, m', bs[i])
    requires JoinsPrev(m, bs[i]) && Index(m[bs[i] + 2]) == bs[j]
    requires forall q :: q in live ==> !(bs[j] < q < bs[i])
    requires forall q :: q in live - {bs[i]} ==> q < |m'| && Occupied(m'[q])
    ensures WellFormed(m', live - {bs[i]})
  {
    InvMeans(m, bs, live);
    hide Inv, Released, Aligned, JoinsPrev, Occupied, Index, Ptr;
    ReleasedIntoPrev(m, bs, m', i, j);
    forall a | j + 1 <= a < i + 1 ensures bs[a] !in live - {bs[i]} {
      if a < i { assert bs[j] < bs[a] < bs[i]; }
    }
    hide Tiles;
    InvRemoved(m, bs, live, m', j + 1, i + 1, live - {bs[i]});
  }

  // Joining a next block that is free, when it is not the last and when it is.
  lemma JoinedNext(m: Memory, bs: seq<nat>, live: set<nat>, m': Memory, i: nat, live': set<nat>)
    requires Inv(m, bs, live) && live' <= live && i < |bs| - 3 && !Occupied(m[bs[i + 1]])
    requires Tiles(m', Removed(bs, i + 1, i + 2)) && Aligned(m', Removed(bs, i + 1, i + 2))
    requires forall q :: q in live' ==> q < |m'| && Occupied(m'[q])
    ensures WellFormed(m', live')
  {
    NotLive(m, bs, live, i + 1);
    hide Inv, Aligned, Tiles, Occupied;
    InvRemoved(m, bs, live, m', i + 1, i + 2, live');
  }

  lemma JoinedLast(m: Memory, bs: seq<nat>, live: set<nat>, m': Memory, i: nat, live': set<nat>)
    requires Inv(m, bs, live) && live' <= live && i == |bs| - 3 && bs[i] !in live'
    requires Tiles(m', Removed(bs, i + 1, i + 2)) && Aligned(m', Removed(bs, i + 1, i + 2))
    requires forall q :: q in live' ==> q < |m'| && Occupied(m'[q])
    ensures WellFormed(m', live')
  {
    hide Inv, Aligned, Tiles, Occupied;
    InvRemovedLast(m, bs, live, m', i, live');
  }

  // The words a join would look at lie inside the buffer.
  lemma NextInside(m: Memory, bs: seq<nat>, live: set<nat>, i: nat)
    requires Inv(m, bs, live) && i < |bs| - 2
    ensures Tiles(m, bs) && Aligned(m, bs) && bs[i + 1] < |m|
  {
  }

  lemma SafeByNext(m: Memory, bs: seq<nat>, live: set<nat>, m': Memory, i: nat)
    requires Inv(m, bs, live) && i < |bs| - 2 && Released(m, m', bs[i])
    requires JoinsPrev(m, bs[i]) ==> forall j :: 0 <= j < |bs| - 1 ==> bs[j] != Index(m[bs[i] + 2])
    requires forall q :: q in live - {bs[i]} ==> q < |m'| && Occupied(m'[q])
    ensures WellFormed(m', live - {bs[i]})
  {
    hide Released, Aligned, Tiles, Inv, Occupied, WellFormed;
    NextInside(m, bs, live, i);
    ReleasedIntoNext(m, bs, m', i);
    if Occupied(m[bs[i + 1]]) {
      InvSame(m, bs, live, m', live - {bs[i]});
    } else if i == |bs| - 3 {
      JoinedLast(m, bs, live, m', i, live - {bs[i]});
    } else {
      JoinedNext(m, bs, live, m', i, live - {bs[i]});
    }
  }

  lemma InvSame(m: Memory, bs: seq<nat>, live: set<nat>, m': Memory, live': set<nat>)
    requires Inv(m, bs, live) && live' <= live
    requires Tiles(m', bs) && Aligned(m', bs) && forall q :: q in live' ==> q < |m'| && Occupied(m'[q])
    ensures Inv(m', bs, live') && WellFormed(m', live')
  {
    hide Tiles, Aligned, Occupied, Heads;
    assert Inv(m', bs, live');
  }

  lemma NotLive(m: Memory, bs: seq<nat>, live: set<nat>, i: nat)
    requires Inv(m, bs, live) && i < |bs| - 1 && !Occupied(m[bs[i]])
    ensures bs[i] !in live
  {
  }

  // A live block between `prev` and this one drops out of the tiling.
  lemma UnsafeByPrev(m: Memory, bs: seq<nat>, live: set<nat>, m': Memory, c: nat, q: nat)
    requires Inv(m, bs, live) && c in live && Released(m, m', c)
    requires JoinsPrev(m, c) && IsBlock(m, 0, Index(m[c + 2]))
    requires q in live && Index(m[c + 2]) < q < c
    ensures !WellFormed(m', live - {c})
  {
    var i := LiveBlock(m, bs, live, c);
    var j := PrevTile(m, bs, i);
    ReleasedIntoPrev(m, bs, m', i, j);
    if WellFormed(m', live - {c}) {
      var bs' :| Inv(m', bs', live - {c});
      var x :| 0 <= x < |bs'| - 2 && bs'[x] == q;
      TilesUnique(m', bs', Removed(bs, j + 1, i + 1), x);
      RemovedSkips(bs, j, i, x);
    }
  }

  lemma RemovedSkips(bs: seq<nat>, j: nat, i: nat, x: nat)
    requires forall a, b :: 0 <= a < b < |bs| ==> bs[a] < bs[b]
    requires j < i < |bs| && x < |Removed(bs, j + 1, i + 1)|
    ensures Removed(bs, j + 1, i + 1)[x] <= bs[j] || Removed(bs, j + 1, i + 1)[x] > bs[i]
  {
    if x > j { assert Removed(bs, j + 1, i + 1)[x] == bs[x + i - j]; }
  }

  lemma PayloadWordLost(m: Memory, m': Memory, q: nat, x: nat)
    requires |m'| == |m| && q + HEADER <= |m| && q + HEADER <= x < Index(m[q + 1]) <= |m|
    requires m'[q + 1] == m[q + 1] && m'[x] != m[x]
    ensures Payload(m', q) != Payload(m, q)
  {
    assert Payload(m, q)[x - q - HEADER] == m[x];
    assert Payload(m', q)[x - q - HEADER] == m'[x];
  }

  // A dead `prev` header inside a live block costs that block a payload word.
  lemma UnsafeByWrite(m: Memory, bs: seq<nat>, live: set<nat>, m': Memory, c: nat, q: nat)
    requires Inv(m, bs, live) && c in live && Released(m, m', c)
    requires JoinsPrev(m, c) && m[Index(m[c + 2]) + 1] != m[c + 1]
    requires q in live && q + HEADER <= |m| && q < Index(m[c + 2]) < Index(m[q + 1])
    ensures q != c && Payload(m', q) != Payload(m, q)
  {
    var a := LiveBlock(m, bs, live, q);
    var i := LiveBlock(m, bs, live, c);
    var k := Index(m[c + 2]);
    assert k < c && k % HEADER == 0;
    if q != c { Apart(m, bs, i, a); }
    PayloadWordLost(m, m', q, k + 1);
  }

  lemma ReleaseSafe(m: Memory, bs: seq<nat>, live: set<nat>, m': Memory, c: nat)
    requires Inv(m, bs, live) && c in live && Released(m, m', c) && PrevJoinSafe(m, live, c)
    ensures KeepsAll(m, m', live - {c})
  {
    var i := LiveBlock(m, bs, live, c);
    InvMeans(m, bs, live);
    if JoinsPrev(m, c) { IsBlockIsTile(m, bs, 0, Index(m[c + 2])); }
    hide Inv, Released, Occupied, Payload, Index, Ptr, Tiles, WellFormed;
    forall q | q in live - {c}
      ensures q < |m'| && Occupied(m'[q]) && Payload(m', q) == Payload(m, q)
    {
      ReleasedKeeps(m, bs, live, m', c, q);
    }
    if JoinsPrev(m, c) && IsBlock(m, 0, Index(m[c + 2])) {
      var j := PrevTile(m, bs, i);
      SafeByPrev(m, bs, live, m', i, j);
    } else {
      SafeByNext(m, bs, live, m', i);
    }
  }

  lemma InvMeans(m: Memory, bs: seq<nat>, live: set<nat>)
    requires Inv(m, bs, live)
    ensures Tiles(m, bs) && Aligned(m, bs)
  {
  }

  lemma ReleaseUnsafe(m: Memory, bs: seq<nat>, live: set<nat>, m': Memory, c: nat)
    requires Inv(m, bs, live) && c in live && Released(m, m', c) && !PrevJoinSafe(m, live, c)
    ensures !KeepsAll(m, m', live - {c})
  {
    LiveIsReleasable(m, bs, live, c);
    assert c + HEADER <= |m|;
    hide Inv, Released, Occupied, Payload, Ptr, WellFormed, Releasable;
    if IsBlock(m, 0, Index(m[c + 2])) {
      var q :| q in live && Index(m[c + 2]) < q < c;
      UnsafeByPrev(m, bs, live, m', c, q);
    } else {
      var q :| q in live && !(q + HEADER <= |m| && !(q < Index(m[c + 2]) < Index(m[q + 1])));
      var a := LiveBlock(m, bs, live, q);
      UnsafeByWrite(m, bs, live, m', c, q);
    }
  }

  lemma ReleaseExact(m: Memory, bs: seq<nat>, live: set<nat>, c: nat)
    requires Inv(m, bs, live) && c in live
    ensures Releasable(m, c)
    ensures KeepsAll(m, Release(m, c), live - {c}) <==> PrevJoinSafe(m, live, c)
  {
    LiveIsReleasable(m, bs, live, c);
    hide Inv, Release, Released, KeepsAll, PrevJoinSafe, Releasable;
    ReleaseStores(m, c);
    if PrevJoinSafe(m, live, c) {
      ReleaseSafe(m, bs, live, Release(m, c), c);
    } else {
      ReleaseUnsafe(m, bs, live, Release(m, c), c);
    }
  }
}
