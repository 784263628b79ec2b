// When a realloc that moves is safe, told from the heap before the call: first for an
// allocation that leaves room for a header behind it.

module HeapRoom {
  import opened HeapMemory
  import opened HeapBlocks
  import opened HeapUpdates
  import opened HeapFree
  import opened HeapCalls
  import opened HeapMoves

  // No live block lies strictly between two places.
  predicate NoneBetween(live: set<nat>, low: int, high: int) {
    forall q :: q in live ==> !(low < q < high)
  }

  // Where the word came from that lies at k after the payload of c was copied to f.
  function Source(m: Memory, c: nat, f: nat, k: int): int
    requires c + HEADER <= |m|
  {
    if k < f + Index(m[c + 1]) - c then c + k - f else k
  }

  // Block f is taken with its new end at n, c's payload is copied there, and c is freed.
  // The free follows c's `prev` to a place k. It does no harm when there is none, or when
  // it is the new block. Behind the new block's end, k heads a block if it is that end,
  // and is a payload word if it lies inside. Anywhere else it is as safe as it was,
  // except that a join must not swallow the new block.
  predicate RoomSafe(m: Memory, live: set<nat>, c: nat, f: nat, n: nat)
    requires Releasable(m, c) && f + HEADER <= n && n + HEADER <= |m|
  {
    m[c + 2] == 0 ||
    var k := Index(m[c + 2]);
    if k == f then true
    else if k == n then Occupied(m[n]) || NoneBetween(live, n, c)
    else if f < k < n then Occupied(m[Source(m, c, f, k)]) || m[Source(m, c, f, k) + 1] == m[c + 1]
    else PrevJoinSafe(m, live, c) && (JoinsPrev(m, c) && IsBlock(m, 0, k) ==> !(k < f < c))
  }

  // A word that neither the claim nor the copy touches.
  predicate Aside(m: Memory, c: nat, f: nat, n: nat, x: nat)
    requires c + HEADER <= |m|
  {
    !(f + HEADER <= x < f + Index(m[c + 1]) - c) && x != f && x != f + 1 && x != n + 1 && x != n + 2
  }

  // The buffer after the claim and the copy, before the free.
  ghost predicate Moved(m: Memory, m2: Memory, c: nat, f: nat, n: nat) {
    && |m2| == |m| && c + HEADER <= |m| && c + HEADER <= Index(m[c + 1]) <= |m|
    && f + Index(m[c + 1]) - c <= n && n + HEADER <= |m|
    && Occupied(m2[f]) && m2[f + 1] == Ptr(n) && m2[n + 1] == m[f + 1] && m2[n + 2] == Ptr(f)
    && (forall x :: f + HEADER <= x < f + Index(m[c + 1]) - c ==> m2[x] == m[x - f + c])
    && forall x :: 0 <= x < |m| && Aside(m, c, f, n, x) ==> m2[x] == m[x]
  }

  lemma MovedWords(m: Memory, m1: Memory, m2: Memory, c: nat, f: nat, n: nat)
    requires Claimed(m, m1, f, n) && c + HEADER <= |m| && c + HEADER <= Index(m[c + 1]) <= |m|
    requires Copied(m1, m2, c + HEADER, f + HEADER, Index(m[c + 1]) - c - HEADER)
    requires f + Index(m[c + 1]) - c <= n && (Index(m[c + 1]) <= f || n <= c)
    ensures Moved(m, m2, c, f, n)
  {
  }

  // The header of the block that is freed is as it was.
  lemma MovedHeader(m: Memory, m2: Memory, c: nat, f: nat, n: nat)
    requires Moved(m, m2, c, f, n) && Releasable(m, c) && (Index(m[c + 1]) <= f || n < c)
    requires c % HEADER == 0 && n % HEADER == 0
    ensures m2[c] == m[c] && m2[c + 1] == m[c + 1] && m2[c + 2] == m[c + 2] && Releasable(m2, c)
  {
    hide PrevInRange;
  }

  lemma ClaimAndCopy(m: Memory, c: nat, f: nat, n: nat, words: nat) returns (m1: Memory, m2: Memory)
    requires n == f + HEADER + words && n + HEADER <= |m|
    requires c + HEADER <= |m| && c + HEADER <= Index(m[c + 1]) <= |m|
    requires Index(m[c + 1]) - c - HEADER <= words && (Index(m[c + 1]) <= f || n < c)
    ensures m1 == Claim(m, f, words) && Claimed(m, m1, f, n) && |m1| == |m|
    ensures m2 == CopyWords(m1, c + HEADER, f + HEADER, Index(m[c + 1]) - c - HEADER)
    ensures Copied(m1, m2, c + HEADER, f + HEADER, Index(m[c + 1]) - c - HEADER) && Moved(m, m2, c, f, n)
  {
    hide Claim, CopyWords, Claimed, Copied, Moved, Index;
    var k := Index(m[c + 1]) - c - HEADER;
    m1 := Claim(m, f, words);
    ClaimStores(m, f, words);
    m2 := CopyWords(m1, c + HEADER, f + HEADER, k);
    CopyStores(m1, c + HEADER, f + HEADER, k);
    MovedWords(m, m1, m2, c, f, n);
  }

  // The stores of a move: claim, copy, free.
  lemma MoveStores(m: Memory, c: nat, f: nat, n: nat, words: nat) returns (m1: Memory, m2: Memory)
    requires FirstFit(m, 0, 8 * words + 24) == Found(f) && n == f + HEADER + words && n + HEADER <= |m|
    requires Releasable(m, c) && Index(m[c + 1]) - c - HEADER <= words && (Index(m[c + 1]) <= f || n < c)
    requires c % HEADER == 0 && n % HEADER == 0
    ensures Claimed(m, m1, f, n) && c + HEADER <= Index(m[c + 1])
    ensures Copied(m1, m2, c + HEADER, f + HEADER, Index(m[c + 1]) - c - HEADER)
    ensures Moved(m, m2, c, f, n) && Releasable(m2, c)
    ensures Relocated(m, c, ClaimFirstFit(m, 8 * words)) == Done(Release(m2, c), Address(f))
    ensures Released(m2, Release(m2, c), c)
  {
    hide Claim, CopyWords, Release, FirstFit, Releasable, Relocated, Claimed, Copied, Moved, ClaimFirstFit, Index;
    hide Released;
    Bounds(m, c);
    m1, m2 := ClaimAndCopy(m, c, f, n, words);
    MovedHeader(m, m2, c, f, n);
    ReleaseStores(m2, c);
    CopyAndFreeIs(m1, c, f, Index(m[c + 1]) - c - HEADER);
    ClaimIs(m, words, f);
    RelocatedIs(m, c, m1, Address(f));
  }

  lemma Bounds(m: Memory, c: nat)
    requires Releasable(m, c)
    ensures c + HEADER <= |m| && c + HEADER <= Index(m[c + 1]) && Index(m[c + 1]) + HEADER <= |m|
  {
  }

  lemma RelocatedIs(m: Memory, c: nat, m1: Memory, a: nat)
    requires Releasable(m, c)
    ensures Relocated(m, c, Done(m1, a)) == CopyAndFree(m1, c, Index(m[c + 1]) - c - HEADER, a)
  {
  }

  // What the free finds at the place `prev` names.
  lemma WordsAt(m: Memory, m2: Memory, c: nat, f: nat, n: nat, k: nat)
    requires Moved(m, m2, c, f, n) && k + HEADER <= |m|
    requires c % HEADER == 0 && f % HEADER == 0 && n % HEADER == 0 && k % HEADER == 0
    requires Index(m[c + 1]) % HEADER == 0
    ensures k == n ==> m2[k] == m[k]
    ensures f < k < n ==> 0 <= Source(m, c, f, k) && Source(m, c, f, k) + 1 < |m|
    ensures f < k < n ==> m2[k] == m[Source(m, c, f, k)] && m2[k + 1] == m[Source(m, c, f, k) + 1]
    ensures k < f || k > n ==> m2[k] == m[k] && m2[k + 1] == m[k + 1]
  {
    MovedPlaces(m, m2, c, f, n);
    hide Moved, Index, Source;
    HeadersApart(k, n);
    HeadersApart(k, f);
    if f < k < n {
      WordsInside(m, m2, c, f, n, k);
    } else if k != f {
      AsideWord(m, m2, c, f, n, k);
      if k != n { AsideWord(m, m2, c, f, n, k + 1); }
    }
  }

  lemma WordsInside(m: Memory, m2: Memory, c: nat, f: nat, n: nat, k: nat)
    requires Moved(m, m2, c, f, n) && f + HEADER <= k && k + HEADER <= n
    requires c % HEADER == 0 && f % HEADER == 0 && k % HEADER == 0 && Index(m[c + 1]) % HEADER == 0
    ensures n + HEADER <= |m| == |m2|
    ensures 0 <= Source(m, c, f, k) && Source(m, c, f, k) + 1 < |m|
    ensures m2[k] == m[Source(m, c, f, k)] && m2[k + 1] == m[Source(m, c, f, k) + 1]
  {
    var e := Index(m[c + 1]);
    MovedPlaces(m, m2, c, f, n);
    hide Moved, Index;
    CopiedUpTo(c, f, e, k);
    if k < f + e - c {
      MovedWord(m, m2, c, f, n, k);
      MovedWord(m, m2, c, f, n, k + 1);
    } else {
      AsideWord(m, m2, c, f, n, k);
      AsideWord(m, m2, c, f, n, k + 1);
    }
  }

  lemma MovedPlaces(m: Memory, m2: Memory, c: nat, f: nat, n: nat)
    requires Moved(m, m2, c, f, n)
    ensures |m2| == |m| && c + HEADER <= Index(m[c + 1]) <= |m| && f + Index(m[c + 1]) - c <= n && n + HEADER <= |m|
  {
  }

  lemma CopiedUpTo(c: nat, f: nat, e: nat, k: nat)
    requires c % HEADER == 0 && f % HEADER == 0 && e % HEADER == 0 && k % HEADER == 0 && c <= e
    ensures k < f + e - c ==> k + HEADER <= f + e - c
  {
  }

  lemma MovedWord(m: Memory, m2: Memory, c: nat, f: nat, n: nat, x: nat)
    requires Moved(m, m2, c, f, n) && f + HEADER <= x < f + Index(m[c + 1]) - c
    ensures c + x - f < |m| && m2[x] == m[c + x - f]
  {
  }

  lemma AsideWord(m: Memory, m2: Memory, c: nat, f: nat, n: nat, x: nat)
    requires Moved(m, m2, c, f, n) && x < |m| && Aside(m, c, f, n, x)
    ensures m2[x] == m[x]
  {
  }

  // The new end is the only new block.
  lemma BlocksAfter(m: Memory, bs: seq<nat>, m2: Memory, j: nat, n: nat, k: nat)
    requires Tiles(m, bs) && j < |bs| - 1 && Tiles(m2, Inserted(bs, j, n))
    ensures IsBlock(m2, 0, k) <==> k == n || IsBlock(m, 0, k)
  {
    var bs2 := Inserted(bs, j, n);
    IsBlockIsTile(m, bs, 0, k);
    IsBlockIsTile(m2, bs2, 0, k);
    hide IsBlock, Tiles;
    InsertedHolds(bs, j, n, k);
  }

  lemma InsertedHolds(bs: seq<nat>, j: nat, n: nat, k: nat)
    requires j < |bs| - 1
    ensures (exists a :: 0 <= a < |Inserted(bs, j, n)| - 1 && Inserted(bs, j, n)[a] == k)
       <==> k == n || exists a :: 0 <= a < |bs| - 1 && bs[a] == k
  {
    var bs2 := Inserted(bs, j, n);
    InsertedAt(bs, j, n);
    hide Inserted;
    if a :| 0 <= a < |bs2| - 1 && bs2[a] == k && k != n {
      assert bs[if a <= j then a else a - 1] == k;
    }
    if a :| 0 <= a < |bs| - 1 && bs[a] == k {
      assert bs2[if a <= j then a else a + 1] == k;
    }
  }

  lemma InsertedAt(bs: seq<nat>, j: nat, n: nat)
    requires j < |bs| - 1
    ensures var bs2 := Inserted(bs, j, n);
            && |bs2| == |bs| + 1 && bs2[j + 1] == n
            && (forall a :: 0 <= a <= j ==> bs2[a] == bs[a])
            && forall a :: j + 1 < a < |bs2| ==> bs2[a] == bs[a - 1]
  {
  }

  lemma NoBlockInside(m2: Memory, bs2: seq<nat>, j: nat, k: nat)
    requires Tiles(m2, bs2) && j < |bs2| - 1 && bs2[j] < k < bs2[j + 1]
    ensures !IsBlock(m2, 0, k)
  {
    IsBlockIsTile(m2, bs2, 0, k);
  }

  // `prev` names the new end.
  lemma PrevIsEnd(m: Memory, bs: seq<nat>, live: set<nat>, m2: Memory, j: nat, n: nat, c: nat)
    requires Tiles(m, bs) && j < |bs| - 1 && Tiles(m2, Inserted(bs, j, n)) && bs[j] < n
    requires Releasable(m2, c) && m2[c + 2] == Ptr(n) && n + HEADER <= |m| == |m2| && m2[n] == m[n]
    ensures PrevJoinSafe(m2, live + {bs[j]}, c) == (Occupied(m[n]) || NoneBetween(live, n, c))
  {
    BlocksAfter(m, bs, m2, j, n, n);
    hide Tiles, Releasable, IsBlock, Occupied;
  }

  // `prev` names a word of the new payload.
  lemma PrevIsInside(m: Memory, m2: Memory, bs2: seq<nat>, live: set<nat>, j: nat, c: nat, k: nat, s: nat)
    requires Tiles(m2, bs2) && j < |bs2| - 2 && bs2[j] < k < bs2[j + 1]
    requires Releasable(m2, c) && m2[c + 2] == Ptr(k) && s + 1 < |m| == |m2| && k + 1 < |m|
    requires m2[k] == m[s] && m2[k + 1] == m[s + 1] && m2[c + 1] == m[c + 1]
    ensures PrevJoinSafe(m2, live + {bs2[j]}, c) == (Occupied(m[s]) || m[s + 1] == m[c + 1])
  {
    NoBlockInside(m2, bs2, j, k);
    assert m2[bs2[j] + 1] == Ptr(bs2[j + 1]);
    assert bs2[j] in live + {bs2[j]};
    hide Tiles, Releasable, IsBlock, Occupied;
  }

  // `prev` names a place that neither the claim nor the copy touched.
  lemma PrevIsElsewhere(m: Memory, bs: seq<nat>, live: set<nat>, m2: Memory, j: nat, n: nat, c: nat, k: nat)
    requires Inv(m, bs, live) && j < |bs| - 1 && Tiles(m2, Inserted(bs, j, n)) && bs[j] < n
    requires Releasable(m, c) && Releasable(m2, c) && m2[c + 2] == m[c + 2] == Ptr(k) && m2[c + 1] == m[c + 1]
    requires k + 1 < |m| == |m2| && m2[k] == m[k] && m2[k + 1] == m[k + 1] && (k < bs[j] || n < k)
    requires forall q :: q in live ==> q != bs[j] && q + HEADER <= |m| && m2[q + 1] == m[q + 1]
    requires bs[j] + HEADER <= |m| && m2[bs[j] + 1] == Ptr(n)
    ensures PrevJoinSafe(m2, live + {bs[j]}, c) ==
            (PrevJoinSafe(m, live, c) && (JoinsPrev(m, c) && IsBlock(m, 0, k) ==> !(k < bs[j] < c)))
  {
    BlocksAfter(m, bs, m2, j, n, k);
    hide Inv, Tiles, Releasable, IsBlock, Occupied;
    assert forall q :: q in live + {bs[j]} <==> q in live || q == bs[j];
  }

  // `prev` names nothing, or the new block, which is occupied.
  lemma PrevIsNothing(m2: Memory, live: set<nat>, c: nat, f: nat)
    requires Releasable(m2, c) && f < |m2| && (m2[c + 2] == 0 || (m2[c + 2] == Ptr(f) && Occupied(m2[f])))
    ensures PrevJoinSafe(m2, live, c)
  {
    hide Releasable, Occupied, IsBlock;
  }

  lemma RoomExact(m: Memory, bs: seq<nat>, live: set<nat>, m2: Memory, j: nat, n: nat, c: nat)
    requires Inv(m, bs, live) && c in live && j < |bs| - 1 && !Occupied(m[bs[j]])
    requires n % HEADER == 0 && bs[j] + HEADER <= n && n + HEADER <= bs[j + 1]
    requires Moved(m, m2, c, bs[j], n) && Inv(m2, Inserted(bs, j, n), live + {bs[j]})
    ensures Releasable(m, c) && Releasable(m2, c)
    ensures PrevJoinSafe(m2, live + {bs[j]}, c) == RoomSafe(m, live, c, bs[j], n)
  {
    var f, bs2 := bs[j], Inserted(bs, j, n);
    LiveIsReleasable(m, bs, live, c);
    LiveIsReleasable(m2, bs2, live + {f}, c);
    Placing(m, bs, live, j, n, c);
    NewIsOccupied(m, m2, c, f, n);
    hide Inv, Tiles, Occupied, Moved, Inserted, Releasable, Ptr, PrevJoinSafe;
    MovedHeader(m, m2, c, f, n);
    if m[c + 2] != 0 {
      var k: nat := PrevPlace(m, c);
      RoomAt(m, bs, live, m2, j, n, c, k);
    } else {
      PrevIsNothing(m2, live + {f}, c, f);
    }
  }

  lemma NewIsOccupied(m: Memory, m2: Memory, c: nat, f: nat, n: nat)
    requires Moved(m, m2, c, f, n) && f + HEADER <= n
    ensures f + HEADER <= |m2| == |m| && n + HEADER <= |m| && Occupied(m2[f]) && m2[f + 1] == Ptr(n)
  {
  }

  lemma RoomSafeAt(m: Memory, live: set<nat>, c: nat, f: nat, n: nat, k: nat)
    requires Releasable(m, c) && f + HEADER <= n && n + HEADER <= |m| && m[c + 2] != 0 && Index(m[c + 2]) == k
    requires f < k < n ==> 0 <= Source(m, c, f, k) && Source(m, c, f, k) + 1 < |m|
    ensures k == f ==> RoomSafe(m, live, c, f, n)
    ensures k == n ==> RoomSafe(m, live, c, f, n) == (Occupied(m[n]) || NoneBetween(live, n, c))
    ensures f < k < n ==>
              var s := Source(m, c, f, k);
              RoomSafe(m, live, c, f, n) == (Occupied(m[s]) || m[s + 1] == m[c + 1])
    ensures k < f || n < k ==>
              RoomSafe(m, live, c, f, n)
              == (PrevJoinSafe(m, live, c) && (JoinsPrev(m, c) && IsBlock(m, 0, k) ==> !(k < f < c)))
  {
    hide Source, Occupied, Index, PrevJoinSafe, JoinsPrev, IsBlock, NoneBetween;
  }

  lemma MovedElsewhere(m: Memory, bs: seq<nat>, live: set<nat>, m2: Memory, j: nat, n: nat, c: nat, k: nat)
    requires Inv(m, bs, live) && c in live && j < |bs| - 1 && !Occupied(m[bs[j]])
    requires n % HEADER == 0 && bs[j] + HEADER <= n && n + HEADER <= bs[j + 1]
    requires Moved(m, m2, c, bs[j], n) && Tiles(m2, Inserted(bs, j, n))
    requires Releasable(m, c) && Releasable(m2, c) && m2[c + 2] == m[c + 2] == Ptr(k) && m2[c + 1] == m[c + 1]
    requires k + 1 < |m| == |m2| && m2[k] == m[k] && m2[k + 1] == m[k + 1] && (k < bs[j] || n < k)
    ensures PrevJoinSafe(m2, live + {bs[j]}, c) ==
            (PrevJoinSafe(m, live, c) && (JoinsPrev(m, c) && IsBlock(m, 0, k) ==> !(k < bs[j] < c)))
  {
    NewIsOccupied(m, m2, c, bs[j], n);
    hide Inv, Tiles, Occupied, Moved, Inserted, Releasable, Ptr, PrevJoinSafe, JoinsPrev, IsBlock;
    NextKept(m, bs, live, m2, j, n, c);
    PrevIsElsewhere(m, bs, live, m2, j, n, c, k);
  }

  lemma RoomAt(m: Memory, bs: seq<nat>, live: set<nat>, m2: Memory, j: nat, n: nat, c: nat, k: nat)
    requires Inv(m, bs, live) && c in live && j < |bs| - 1 && !Occupied(m[bs[j]])
    requires n % HEADER == 0 && bs[j] + HEADER <= n && n + HEADER <= bs[j + 1]
    requires Moved(m, m2, c, bs[j], n) && Inv(m2, Inserted(bs, j, n), live + {bs[j]})
    requires Releasable(m, c) && Releasable(m2, c) && k < c && k % HEADER == 0
    requires m[c + 2] == m2[c + 2] == Ptr(k) && Index(m[c + 2]) == k && m[c + 2] != 0 && m[c + 1] == m2[c + 1]
    ensures n + HEADER <= |m| && PrevJoinSafe(m2, live + {bs[j]}, c) == RoomSafe(m, live, c, bs[j], n)
  {
    var f, bs2 := bs[j], Inserted(bs, j, n);
    Placing(m, bs, live, j, n, c);
    NewIsOccupied(m, m2, c, f, n);
    InsertedPlaces(m2, bs2, live + {f}, bs, j, n);
    hide Inv, Tiles, Occupied, Moved, Inserted, Releasable, Ptr, PrevJoinSafe, JoinsPrev, IsBlock;
    WordsAt(m, m2, c, f, n, k);
    RoomSafeAt(m, live, c, f, n, k);
    hide RoomSafe, Source, Index, NoneBetween;
    if k == n {
      PrevIsEnd(m, bs, live, m2, j, n, c);
    } else if f < k < n {
      PrevIsInside(m, m2, bs2, live, j, c, k, Source(m, c, f, k));
    } else if k != f {
      MovedElsewhere(m, bs, live, m2, j, n, c, k);
    } else {
      PrevIsNothing(m2, live + {f}, c, f);
    }
  }

  lemma Placing(m: Memory, bs: seq<nat>, live: set<nat>, j: nat, n: nat, c: nat)
    requires Inv(m, bs, live) && c in live && j < |bs| - 1 && !Occupied(m[bs[j]])
    requires bs[j] + HEADER <= n && n + HEADER <= bs[j + 1]
    ensures bs[j] % HEADER == 0 && c % HEADER == 0 && c + HEADER <= |m| && Index(m[c + 1]) % HEADER == 0
    ensures bs[j + 1] <= |m| && (Index(m[c + 1]) <= bs[j] || n < c)
    ensures Tiles(m, bs)
  {
    var i := LiveBlock(m, bs, live, c);
    Apart(m, bs, i, j);
  }

  lemma InsertedPlaces(m2: Memory, bs2: seq<nat>, live2: set<nat>, bs: seq<nat>, j: nat, n: nat)
    requires Inv(m2, bs2, live2) && j < |bs| - 1 && bs2 == Inserted(bs, j, n)
    ensures Tiles(m2, bs2) && bs2[j] == bs[j] && bs2[j + 1] == n && j < |bs2| - 2
  {
  }

  lemma PrevPlace(m: Memory, c: nat) returns (k: nat)
    requires Releasable(m, c) && m[c + 2] != 0
    ensures k < c && k % HEADER == 0 && m[c + 2] == Ptr(k) && Index(m[c + 2]) == k
  {
    k :| k < c && k % HEADER == 0 && m[c + 2] == Ptr(k);
  }

  // Every live block ends where it did.
  lemma NextKept(m: Memory, bs: seq<nat>, live: set<nat>, m2: Memory, j: nat, n: nat, c: nat)
    requires Inv(m, bs, live) && c in live && j < |bs| - 1 && !Occupied(m[bs[j]])
    requires bs[j] + HEADER <= n && n + HEADER <= bs[j + 1] && Moved(m, m2, c, bs[j], n)
    ensures forall q :: q in live ==> q != bs[j] && q + HEADER <= |m| && m2[q + 1] == m[q + 1]
  {
    forall q | q in live
      ensures q != bs[j] && q + HEADER <= |m| && m2[q + 1] == m[q + 1]
    {
      var a := LiveBlock(m, bs, live, q);
      Apart(m, bs, a, j);
    }
  }
}
