// A realloc that moves into a block that fits exactly. The allocation leaves the header
// behind it its own successor; the free that follows mends the list in one case.

module HeapExactFit {
  import opened HeapMemory
  import opened HeapBlocks
  import opened HeapUpdates
  import opened HeapFree
  import opened HeapCalls
  import opened HeapMoves
  import opened HeapRoom

  // The freed block's `prev` is the header that was made its own successor, it is free,
  // and joining it swallows no live block.
  predicate ExactSafe(m: Memory, live: set<nat>, c: nat, n: nat)
    requires c + HEADER <= |m|
  {
    n + HEADER <= |m| && m[c + 2] == Ptr(n) && !Occupied(m[n]) && NoneBetween(live, n, c)
  }

  // Only block f, two words behind it and c's header may have changed.
  ghost predicate Elsewhere(m: Memory, m3: Memory, c: nat, f: nat, n: nat) {
    |m3| == |m| &&
    forall x :: 0 <= x < |m| && (x < f || n <= x) && x != n + 1 && x != n + 2 && x != c && x != c + 1 ==> m3[x] == m[x]
  }

  // The words the free changes.
  lemma FreeWords(m: Memory, m2: Memory, m3: Memory, c: nat, f: nat, n: nat)
    requires Moved(m, m2, c, f, n) && m[f + 1] == Ptr(n) && Releasable(m, c) && Released(m2, m3, c)
    requires f != c && n != c && (Index(m[c + 1]) <= f || n < c)
    requires c % HEADER == 0 && f % HEADER == 0 && n % HEADER == 0
    ensures |m3| == |m| && Occupied(m3[f]) && m3[f + 1] == Ptr(n)
    ensures m3[n + 1] == if m[c + 2] == Ptr(n) && !Occupied(m[n]) then m[c + 1] else Ptr(n)
    ensures m3[n + 2] == Ptr(f) && m3[f + 2] == m[f + 2]
    ensures m[c + 2] == Ptr(n) && !Occupied(m[n]) ==>
              Elsewhere(m, m3, c, f, n) && forall x :: f + HEADER <= x < n ==> m3[x] == m2[x]
  {
    MovedHeader(m, m2, c, f, n);
  }

  //// When it is mended ////

  lemma MendedTiles(m: Memory, bs: seq<nat>, m3: Memory, j: nat, i: nat)
    requires Tiles(m, bs) && Aligned(m, bs) && j + 1 < i < |bs| - 2 && |m3| == |m|
    requires m3[bs[j] + 1] == Ptr(bs[j + 1]) && m3[bs[j + 1] + 1] == Ptr(bs[i + 1]) && m3[bs[j + 1] + 2] == Ptr(bs[j])
    requires forall a :: 0 <= a < |bs| - 1 && a != j && a != j + 1 && a != i ==> m3[bs[a] + 1] == m[bs[a] + 1]
    requires forall a :: 0 <= a < |bs| - 1 && a != j && a != j + 1 ==> m3[bs[a] + 2] == m[bs[a] + 2]
    requires m3[bs[j] + 2] == m[bs[j] + 2]
    ensures Tiles(m3, Removed(bs, j + 2, i + 1)) && Aligned(m3, Removed(bs, j + 2, i + 1))
  {
    assert m[bs[j] + 1] == Ptr(bs[j + 1]);
    TilesRemoved(m, bs, m3, j + 2, i + 1);
    var bs' := Removed(bs, j + 2, i + 1);
    assert PrevInRange(Ptr(bs[j]), bs[j + 1]);
    forall a | 0 <= a < |bs'| - 1
      ensures bs'[a] % HEADER == 0 && PrevInRange(m3[bs'[a] + 2], bs'[a])
    {
      if a < j + 2 { assert bs'[a] == bs[a]; } else { assert bs'[a] == bs[a + i - j - 1]; }
    }
  }

  // The headers of the other blocks are as they were.
  lemma HeadersKept(m: Memory, bs: seq<nat>, m3: Memory, j: nat, i: nat)
    requires Tiles(m, bs) && j + 1 < i < |bs| - 2
    requires Elsewhere(m, m3, bs[i], bs[j], bs[j + 1])
    ensures forall a :: 0 <= a < |bs| - 1 && a != j && a != j + 1 && a != i ==> m3[bs[a] + 1] == m[bs[a] + 1]
    ensures forall a :: 0 <= a < |bs| - 1 && a != j && a != j + 1 ==> m3[bs[a] + 2] == m[bs[a] + 2]
  {
    forall a | 0 <= a < |bs| - 1 && a != j && a != j + 1
      ensures (a != i ==> m3[bs[a] + 1] == m[bs[a] + 1]) && m3[bs[a] + 2] == m[bs[a] + 2]
    {
      Apart(m, bs, a, j);
      Apart(m, bs, a, j + 1);
      if a != i { Apart(m, bs, a, i); }
    }
  }

  // The other live blocks are still there with what they held.
  lemma OthersKept(m: Memory, bs: seq<nat>, live: set<nat>, m3: Memory, j: nat, i: nat, q: nat)
    requires Inv(m, bs, live) && j + 1 < i < |bs| - 2 && bs[i] in live
    requires !Occupied(m[bs[j]]) && !Occupied(m[bs[j + 1]]) && NoneBetween(live, bs[j + 1], bs[i])
    requires Elsewhere(m, m3, bs[i], bs[j], bs[j + 1])
    requires q in live && q != bs[i]
    ensures q < |m3| && Occupied(m3[q]) && Payload(m3, q) == Payload(m, q)
    ensures Heads(Removed(bs, j + 2, i + 1), q)
  {
    hide Inv, Payload, Heads, Occupied, Tiles, Index, Ptr, Elsewhere, NoneBetween, Removed;
    var a := LiveBlock(m, bs, live, q);
    var e := bs[a + 1];
    NotTheseBlocks(m, bs, live, j, i, a);
    OtherPlaces(m, bs, j, i, a);
    HeadsRemoved(bs, j + 2, i + 1, q, a);
    LiveIsOccupied(m, bs, live, q);
    OtherUntouched(m, m3, bs[i], bs[j], bs[j + 1], q, e);
    Untouched(m, bs, live, m3, q);
  }

  lemma OtherUntouched(m: Memory, m3: Memory, c: nat, f: nat, n: nat, q: nat, e: nat)
    requires Elsewhere(m, m3, c, f, n) && e <= |m|
    requires e <= f || n + HEADER <= q
    requires e <= c || c + HEADER <= q
    requires f <= n <= c
    ensures |m3| == |m| && forall x :: q <= x < e ==> m3[x] == m[x]
  {
  }

  lemma OtherPlaces(m: Memory, bs: seq<nat>, j: nat, i: nat, a: nat)
    requires Tiles(m, bs) && j + 1 < i < |bs| - 2 && a < |bs| - 2 && a != j && a != j + 1 && a != i
    ensures bs[a + 1] <= bs[j] || bs[j + 1] + HEADER <= bs[a]
    ensures bs[a + 1] <= bs[i] || bs[i] + HEADER <= bs[a]
    ensures bs[j] <= bs[j + 1] <= bs[i] && bs[a + 1] <= |m|
  {
    Apart(m, bs, a, j);
    Apart(m, bs, a, j + 1);
    Apart(m, bs, a, i);
  }

  lemma LiveIsOccupied(m: Memory, bs: seq<nat>, live: set<nat>, q: nat)
    requires Inv(m, bs, live) && q in live
    ensures q < |m| && Occupied(m[q])
  {
    var a := LiveBlock(m, bs, live, q);
  }

  lemma NotTheseBlocks(m: Memory, bs: seq<nat>, live: set<nat>, j: nat, i: nat, a: nat)
    requires Inv(m, bs, live) && j + 1 < i < |bs| - 2 && a < |bs| - 2 && bs[a] in live && bs[a] != bs[i]
    requires !Occupied(m[bs[j]]) && !Occupied(m[bs[j + 1]]) && NoneBetween(live, bs[j + 1], bs[i])
    ensures Tiles(m, bs) && (a < j || a > i)
  {
    NotLive(m, bs, live, j);
    NotLive(m, bs, live, j + 1);
    hide Occupied;
    Outside(bs, j + 1, i, a);
  }

  lemma Outside(bs: seq<nat>, j: nat, i: nat, a: nat)
    requires forall x, y :: 0 <= x < y < |bs| ==> bs[x] < bs[y]
    requires j < i < |bs| && a < |bs| && a != j && a != i && !(bs[j] < bs[a] < bs[i])
    ensures a < j || a > i
  {
  }

  lemma MendedInv(m: Memory, bs: seq<nat>, live: set<nat>, m3: Memory, j: nat, i: nat)
    requires Inv(m, bs, live) && j + 1 < i < |bs| - 2 && bs[i] in live
    requires !Occupied(m[bs[j]]) && !Occupied(m[bs[j + 1]]) && NoneBetween(live, bs[j + 1], bs[i])
    requires Elsewhere(m, m3, bs[i], bs[j], bs[j + 1]) && Occupied(m3[bs[j]]) && m3[bs[j] + 2] == m[bs[j] + 2]
    requires m3[bs[j] + 1] == Ptr(bs[j + 1]) && m3[bs[j + 1] + 1] == Ptr(bs[i + 1]) && m3[bs[j + 1] + 2] == Ptr(bs[j])
    ensures WellFormed(m3, live - {bs[i]} + {bs[j]})
    ensures forall q :: q in live - {bs[i]} ==> Payload(m3, q) == Payload(m, q)
  {
    assert |m3| == |m|;
    hide Elsewhere, Payload;
    HeadersKept(m, bs, m3, j, i);
    MendedTiles(m, bs, m3, j, i);
    var bs', live' := Removed(bs, j + 2, i + 1), live - {bs[i]} + {bs[j]};
    forall q | q in live'
      ensures Heads(bs', q) && q < |m3| && Occupied(m3[q])
      ensures q != bs[j] ==> Payload(m3, q) == Payload(m, q)
    {
      if q == bs[j] {
        assert bs'[j] == q;
      } else {
        OthersKept(m, bs, live, m3, j, i, q);
      }
    }
    hide Tiles, Aligned, Occupied, Heads;
    assert Inv(m3, bs', live');
    assert bs[j] !in live by { NotLive(m, bs, live, j); }
  }

  lemma MendedContents(m: Memory, m2: Memory, m3: Memory, c: nat, f: nat, n: nat)
    requires Moved(m, m2, c, f, n) && |m3| == |m| && m3[f + 1] == Ptr(n)
    requires forall x :: f + HEADER <= x < n ==> m3[x] == m2[x]
    requires f + HEADER <= n && Index(m[c + 1]) - c <= n - f
    ensures |Payload(m3, f)| == n - f - HEADER
    ensures Payload(m3, f) == Contents(m, c, f, n - f - HEADER)
  {
    hide Moved, Payload, Index, Ptr, Contents;
    MoveBounds(m, m2, c, f, n);
    var e: nat := Index(m[c + 1]);
    MovedPayload(m, m2, m3, c, f, n, e);
    PayloadIs(m3, f, n);
    PayloadUpTo(m, c, e);
    ContentsAre(m, c, f, e - c - HEADER, n - f - HEADER);
  }

  lemma PayloadUpTo(m: Memory, c: nat, e: nat)
    requires c + HEADER <= |m| && e == Index(m[c + 1]) && c + HEADER <= e <= |m|
    ensures Payload(m, c) == m[c + HEADER..e]
  {
  }

  lemma ContentsAre(m: Memory, c: nat, f: nat, k: nat, len: nat)
    requires |Payload(m, c)| == k <= len && f + HEADER + len <= |m|
    ensures Contents(m, c, f, len) == Payload(m, c) + m[f + HEADER + k..f + HEADER + len]
  {
    hide Payload;
    var p, rest := Payload(m, c), m[f + HEADER + k..f + HEADER + len];
    if len == k { assert rest == [] && p[..len] == p && p + rest == p; }
  }

  lemma MovedPayload(m: Memory, m2: Memory, m3: Memory, c: nat, f: nat, n: nat, e: nat)
    requires Moved(m, m2, c, f, n) && |m3| == |m| && e == Index(m[c + 1])
    requires forall x :: f + HEADER <= x < n ==> m3[x] == m2[x]
    requires f + HEADER <= n && e - c <= n - f
    ensures m3[f + HEADER..n] == m[c + HEADER..e] + m[f + e - c..n]
  {
    var new_, old_ := m3[f + HEADER..n], m[c + HEADER..e] + m[f + e - c..n];
    hide Index;
    forall x | 0 <= x < |new_|
      ensures new_[x] == old_[x]
    {
      assert new_[x] == m2[f + HEADER + x];
    }
  }

  //// When it is not ////

  // The new block is in the list, and so is the header behind it; that one leads on
  // only if it was mended, and nothing between it and the freed block's end is left.
  lemma OnlyIfMended(m: Memory, m3: Memory, live: set<nat>, c: nat, f: nat, n: nat)
    requires |m3| == |m| && f < n && n + HEADER <= |m| && f !in live && c + HEADER <= |m| && c < Index(m[c + 1])
    requires m3[f + 1] == Ptr(n) && (m3[n + 1] == Ptr(n) || m3[n + 1] == m[c + 1])
    requires m[c + 1] == Ptr(Index(m[c + 1])) && f != c
    requires WellFormed(m3, live - {c} + {f})
    ensures m3[n + 1] == m[c + 1] && NoneBetween(live, n, c)
  {
    var bs' :| Inv(m3, bs', live - {c} + {f});
    assert Heads(bs', f);
    var x :| 0 <= x < |bs'| - 2 && bs'[x] == f;
    assert m3[bs'[x] + 1] == Ptr(bs'[x + 1]);
    assert bs'[x + 1] == n;
    assert m3[bs'[x + 1] + 1] == Ptr(bs'[x + 2]);
    assert bs'[x + 2] > n;
    forall q | q in live
      ensures !(n < q < c)
    {
      if q != c {
        assert q in live - {c} + {f} && Heads(bs', q);
        NoHeadBetween(bs', x + 1, q);
      }
    }
  }

  lemma NoHeadBetween(bs: seq<nat>, x: nat, q: nat)
    requires forall a, b :: 0 <= a < b < |bs| ==> bs[a] < bs[b]
    requires x < |bs| - 1 && Heads(bs, q)
    ensures q <= bs[x] || bs[x + 1] <= q
  {
  }

  //// The whole move ////

  // Where everything lies, as far as the claim, the copy and the free need it.
  lemma ExactPlacing(m: Memory, bs: seq<nat>, live: set<nat>, j: nat, c: nat) returns (i: nat)
    requires Inv(m, bs, live) && c in live && j < |bs| - 1 && !Occupied(m[bs[j]])
    ensures i < |bs| - 2 && bs[i] == c && m[c + 1] == Ptr(bs[i + 1]) && bs[i + 1] != bs[j + 1]
    ensures m[c + 1] == Ptr(Index(m[c + 1])) && m[c + 1] != Ptr(bs[j + 1])
    ensures Releasable(m, c) && m[bs[j] + 1] == Ptr(bs[j + 1]) && bs[j] != c && bs[j] !in live
    ensures bs[j] % HEADER == 0 && c % HEADER == 0 && (bs[j + 1] < |m| ==> bs[j + 1] % HEADER == 0)
    ensures bs[i + 1] <= bs[j] || bs[j + 1] <= c
    ensures c > bs[j + 1] ==> j + 1 < i
  {
    i := LiveBlock(m, bs, live, c);
    LiveIsReleasable(m, bs, live, c);
    Apart(m, bs, i, j);
    if bs[j + 1] < |m| { assert j + 1 < |bs| - 1; }
  }

  // A block claimed right before c overwrites c's `next`, and the free follows it.
  lemma ExactBefore(m: Memory, c: nat, f: nat, words: nat)
    requires FirstFit(m, 0, 8 * words + 24) == Found(f) && c == f + HEADER + words
    requires Releasable(m, c) && m[f + 1] == Ptr(c) && Index(m[c + 1]) - c - HEADER <= words
    ensures Relocated(m, c, ClaimFirstFit(m, 8 * words)) == Undefined
  {
    hide Claim, CopyWords, FirstFit, Release;
    var m1, k := Claim(m, f, words), Index(m[c + 1]) - c - HEADER;
    ClaimStores(m, f, words);
    CopyStores(m1, c + HEADER, f + HEADER, k);
    assert CopyWords(m1, c + HEADER, f + HEADER, k)[c + 1] == Ptr(c);
    assert !Releasable(CopyWords(m1, c + HEADER, f + HEADER, k), c);
  }

  lemma SafeHeaders(m: Memory, live: set<nat>, c: nat, n: nat)
    requires c + HEADER <= |m| && ExactSafe(m, live, c, n)
    ensures n + HEADER <= |m| && !Occupied(m[n]) && NoneBetween(live, n, c)
  {
    hide Occupied, NoneBetween;
  }

  lemma MendedWords(m: Memory, live: set<nat>, m2: Memory, m3: Memory, c: nat, f: nat, n: nat)
    requires Moved(m, m2, c, f, n) && m[f + 1] == Ptr(n) && Releasable(m, c) && Released(m2, m3, c)
    requires f != c && n < c && c % HEADER == 0 && f % HEADER == 0 && n % HEADER == 0
    requires ExactSafe(m, live, c, n)
    ensures |m3| == |m| && Occupied(m3[f]) && m3[f + 1] == Ptr(n) && m3[f + 2] == m[f + 2]
    ensures m3[n + 1] == m[c + 1] && m3[n + 2] == Ptr(f)
    ensures Elsewhere(m, m3, c, f, n) && forall x :: f + HEADER <= x < n ==> m3[x] == m2[x]
  {
    hide Moved, Released, Releasable, NoneBetween, Occupied, Ptr, Index, Elsewhere;
    FreeWords(m, m2, m3, c, f, n);
  }

  lemma MovedSafe(m: Memory, bs: seq<nat>, live: set<nat>, m2: Memory, m3: Memory, j: nat, c: nat, size: nat)
    requires Inv(m, bs, live) && c in live && j < |bs| - 1 && !Occupied(m[bs[j]])
    requires ExactSafe(m, live, c, bs[j + 1]) && c > bs[j + 1] && Moved(m, m2, c, bs[j], bs[j + 1])
    requires Releasable(m2, c) && Released(m2, m3, c)
    requires size <= 8 * (bs[j + 1] - bs[j] - HEADER)
    ensures Reallocated(m, live, Done(m3, Address(bs[j])), c, bs[j], size)
  {
    hide Inv, Released, Release, Releasable, Moved, Payload, Contents, Elsewhere, WellFormed, Ptr, Index, Occupied;
    hide Reallocated, NoneBetween, ExactSafe;
    var i := ExactPlacing(m, bs, live, j, c);
    var f, n := bs[j], bs[j + 1];
    MoveBounds(m, m2, c, f, n);
    SafeHeaders(m, live, c, n);
    MendedWords(m, live, m2, m3, c, f, n);
    MendedInv(m, bs, live, m3, j, i);
    MendedContents(m, m2, m3, c, f, n);
    MendedIsReallocated(m, live, m3, c, f, size);
  }

  lemma MendedIsReallocated(m: Memory, live: set<nat>, m3: Memory, c: nat, f: nat, size: nat)
    requires |m3| == |m| && f !in live && WellFormed(m3, live - {c} + {f})
    requires forall q :: q in live - {c} ==> Payload(m3, q) == Payload(m, q)
    requires size <= 8 * |Payload(m3, f)| && f + HEADER + |Payload(m3, f)| <= |m|
    requires Payload(m3, f) == Contents(m, c, f, |Payload(m3, f)|)
    ensures Reallocated(m, live, Done(m3, Address(f)), c, f, size)
  {
    hide Payload, Contents, WellFormed;
  }

  lemma MoveBounds(m: Memory, m2: Memory, c: nat, f: nat, n: nat)
    requires Moved(m, m2, c, f, n)
    ensures f + Index(m[c + 1]) - c <= n && n + HEADER <= |m| && c + HEADER <= Index(m[c + 1])
    ensures c + HEADER <= |m| == |m2| && Index(m[c + 1]) <= |m|
  {
  }

  lemma MendedIfKept(m: Memory, m2: Memory, m3: Memory, live: set<nat>, c: nat, f: nat, n: nat)
    requires Moved(m, m2, c, f, n) && m[f + 1] == Ptr(n) && Releasable(m, c) && Released(m2, m3, c)
    requires f != c && n != c && f !in live && (Index(m[c + 1]) <= f || n < c)
    requires c % HEADER == 0 && f % HEADER == 0 && n % HEADER == 0
    requires m[c + 1] == Ptr(Index(m[c + 1])) && m[c + 1] != Ptr(n) && WellFormed(m3, live - {c} + {f})
    ensures ExactSafe(m, live, c, n)
  {
    hide Released, Moved, Elsewhere, WellFormed, Occupied, Ptr, Index, Releasable;
    MoveBounds(m, m2, c, f, n);
    FreeWords(m, m2, m3, c, f, n);
    OnlyIfMended(m, m3, live, c, f, n);
  }

  lemma MovedUnsafe(m: Memory, bs: seq<nat>, live: set<nat>, m2: Memory, j: nat, c: nat)
    requires Inv(m, bs, live) && c in live && j < |bs| - 1 && !Occupied(m[bs[j]]) && c != bs[j + 1]
    requires Moved(m, m2, c, bs[j], bs[j + 1]) && Releasable(m2, c) && Released(m2, Release(m2, c), c)
    requires WellFormed(Release(m2, c), live - {c} + {bs[j]})
    ensures ExactSafe(m, live, c, bs[j + 1])
  {
    var i := ExactPlacing(m, bs, live, j, c);
    hide Inv, Released, Release, Moved, WellFormed, Occupied, Ptr, Index, Releasable, ExactSafe, Payload, Contents;
    MoveBounds(m, m2, c, bs[j], bs[j + 1]);
    MendedIfKept(m, m2, Release(m2, c), live, c, bs[j], bs[j + 1]);
  }

  lemma StillWellFormed(m: Memory, live: set<nat>, m3: Memory, c: nat, f: nat, size: nat)
    requires Reallocated(m, live, Done(m3, Address(f)), c, f, size)
    ensures WellFormed(m3, live - {c} + {f})
  {
  }

  // A move into a block that fits exactly keeps its promise exactly when ExactSafe holds.
  lemma ExactFitExact(m: Memory, bs: seq<nat>, live: set<nat>, j: nat, c: nat, words: nat, size: nat)
    requires Inv(m, bs, live) && c in live && j < |bs| - 1 && !Occupied(m[bs[j]])
    requires FirstFit(m, 0, 8 * words + 24) == Found(bs[j]) && bs[j + 1] == bs[j] + HEADER + words
    requires Releasable(m, c) && Index(m[c + 1]) - c - HEADER <= words && size <= 8 * words
    ensures var r := Relocated(m, c, ClaimFirstFit(m, 8 * words));
            Reallocated(m, live, r, c, bs[j], size) <==> ExactSafe(m, live, c, bs[j + 1])
  {
    var i := ExactPlacing(m, bs, live, j, c);
    hide Inv, Relocated, Releasable, Reallocated, FirstFit, Claim;
    var f, n := bs[j], bs[j + 1];
    if n + HEADER > |m| {
      NoRoomAtAll(m, c, f, words);
    } else if c == n {
      ExactBefore(m, c, f, words);
      NotItsOwnPrev(m, c);
    } else {
      var m1, m2 := MoveStores(m, c, f, n, words);
      if ExactSafe(m, live, c, n) {
        PrevIsBelow(m, c, n);
        MovedSafe(m, bs, live, m2, Release(m2, c), j, c, size);
      } else if Reallocated(m, live, Done(Release(m2, c), Address(f)), c, f, size) {
        StillWellFormed(m, live, Release(m2, c), c, f, size);
        MovedUnsafe(m, bs, live, m2, j, c);
      }
    }
  }

  lemma NoRoomAtAll(m: Memory, c: nat, f: nat, words: nat)
    requires FirstFit(m, 0, 8 * words + 24) == Found(f) && f + HEADER + words + HEADER > |m| && Releasable(m, c)
    ensures Relocated(m, c, ClaimFirstFit(m, 8 * words)) == Undefined
  {
    hide Releasable, Occupied;
    ClaimIs(m, words, f);
  }

  lemma NotItsOwnPrev(m: Memory, c: nat)
    requires Releasable(m, c)
    ensures m[c + 2] != Ptr(c)
  {
  }

  lemma PrevIsBelow(m: Memory, c: nat, n: nat)
    requires Releasable(m, c) && m[c + 2] == Ptr(n)
    ensures n < c
  {
  }
}
