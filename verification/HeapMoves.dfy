// When VMHeapRealloc does what its caller expects, exactly.

module HeapMoves {
  import opened HeapMemory
  import opened HeapBlocks
  import opened HeapUpdates
  import opened HeapFree
  import opened HeapRealloc
  import opened HeapCalls

  const MAX_WORDS: nat := 0x2000_0000   // AllocateHeap refuses more than 4 GiB

  // `len` words at block c2 that start with block c's payload and go on with
  // whatever the buffer held there.
  ghost function Contents(m: Memory, c: nat, c2: nat, len: nat): Memory
    requires c2 + HEADER + len <= |m|
  {
    var p := Payload(m, c);
    if len <= |p| then p[..len] else p + m[c2 + HEADER + |p|..c2 + HEADER + len]
  }

  ghost predicate Reallocated(m: Memory, live: set<nat>, r: Outcome, c: nat, c2: nat, size: nat) {
    && r.Done? && r.address == Address(c2) && c2 !in live - {c} && |r.m| == |m|
    && WellFormed(r.m, live - {c} + {c2}) && 8 * |Payload(r.m, c2)| >= size
    && (forall q :: q in live - {c} ==> Payload(r.m, q) == Payload(m, q))
    && c2 + HEADER + |Payload(r.m, c2)| <= |m|
    && Payload(r.m, c2) == Contents(m, c, c2, |Payload(r.m, c2)|)
  }

  // Stores that stay inside one live block's payload.
  lemma StoreKeeps(m: Memory, bs: seq<nat>, live: set<nat>, m': Memory, c: nat)
    requires Inv(m, bs, live) && c in live && |m'| == |m|
    requires forall x :: 0 <= x < |m| && !(c + HEADER <= x < Index(m[c + 1])) ==> m'[x] == m[x]
    ensures Inv(m', bs, live)
    ensures forall q :: q in live && q != c ==> Payload(m', q) == Payload(m, q)
    ensures |Payload(m', c)| == |Payload(m, c)|
  {
    var i := LiveBlock(m, bs, live, c);
    forall a | 0 <= a < |bs| - 1
      ensures m'[bs[a]] == m[bs[a]] && m'[bs[a] + 1] == m[bs[a] + 1] && m'[bs[a] + 2] == m[bs[a] + 2]
    {
      if a != i { Apart(m, bs, i, a); }
    }
    TilesSame(m, bs, m');
    forall q | q in live ensures Heads(bs, q) && Occupied(m'[q]) {
      var a := LiveBlock(m, bs, live, q);
    }
    forall q | q in live && q != c ensures Payload(m', q) == Payload(m, q) {
      var a := LiveBlock(m, bs, live, q);
      Apart(m, bs, i, a);
      Untouched(m, bs, live, m', q);
    }
  }

  ghost predicate Copied(m: Memory, m': Memory, from: nat, to: nat, k: nat) {
    && from + k <= |m| && to + k <= |m| == |m'|
    && (forall x :: 0 <= x < |m| && !(to <= x < to + k) ==> m'[x] == m[x])
    && forall x :: to <= x < to + k ==> m'[x] == m[x - to + from]
  }

  lemma CopyStores(m: Memory, from: nat, to: nat, k: nat)
    requires from + k <= |m| && to + k <= |m|
    ensures Copied(m, CopyWords(m, from, to, k), from, to, k)
  {
  }

  lemma CopiedInto(m: Memory, m': Memory, c: nat, c2: nat, n: nat, n2: nat)
    requires c + HEADER <= n <= |m| && c2 + HEADER <= n2 <= |m| && (n <= c2 || n2 <= c)
    requires m[c + 1] == Ptr(n) && m[c2 + 1] == Ptr(n2) && n - c <= n2 - c2
    requires Copied(m, m', c + HEADER, c2 + HEADER, n - c - HEADER)
    ensures Payload(m', c2) == Payload(m, c) + Payload(m, c2)[n - c - HEADER..]
  {
    var k := n - c - HEADER;
    PayloadIs(m, c, n);
    PayloadIs(m, c2, n2);
    PayloadIs(m', c2, n2);
    var new_, old_ := Payload(m', c2), Payload(m, c) + Payload(m, c2)[k..];
    forall x | 0 <= x < |new_| ensures new_[x] == old_[x] {
      assert new_[x] == m'[c2 + HEADER + x];
    }
  }

  lemma CopyKeeps(m: Memory, bs: seq<nat>, live: set<nat>, m': Memory, c: nat, c2: nat)
    requires Inv(m, bs, live) && c in live && c2 in live && c != c2
    requires |Payload(m, c)| <= |Payload(m, c2)|
    requires Copied(m, m', c + HEADER, c2 + HEADER, |Payload(m, c)|)
    ensures Inv(m', bs, live)
    ensures forall q :: q in live && q != c2 ==> Payload(m', q) == Payload(m, q)
    ensures Payload(m', c2) == Payload(m, c) + Payload(m, c2)[|Payload(m, c)|..]
  {
    var i := LiveBlock(m, bs, live, c);
    var j := LiveBlock(m, bs, live, c2);
    Apart(m, bs, i, j);
    CopiedInto(m, m', c, c2, bs[i + 1], bs[j + 1]);
    StoreKeeps(m, bs, live, m', c2);
  }

  lemma ReleasedLength(m: Memory, m': Memory, c: nat, q: nat)
    requires Released(m, m', c) && q + HEADER <= |m| && q != c && q % HEADER == 0 && c % HEADER == 0
    requires JoinsPrev(m, c) ==> Index(m[c + 2]) != q
    ensures |Payload(m', q)| == |Payload(m, q)|
  {
  }

  lemma ContentsAfterMove(m: Memory, m1: Memory, c: nat, c2: nat)
    requires c2 + HEADER <= |m1| == |m| && c2 + HEADER <= Index(m1[c2 + 1]) <= |m|
    requires forall x :: c2 + HEADER <= x < |m| && x < Index(m1[c2 + 1]) ==> m1[x] == m[x]
    requires |Payload(m, c)| <= |Payload(m1, c2)|
    ensures Contents(m, c, c2, |Payload(m1, c2)|) == Payload(m, c) + Payload(m1, c2)[|Payload(m, c)|..]
  {
    var e, p := Index(m1[c2 + 1]), Payload(m, c);
    assert Payload(m1, c2) == m1[c2 + HEADER..e];
    assert m1[c2 + HEADER..e] == m[c2 + HEADER..e];
    hide Payload, Index;
    var rest := m[c2 + HEADER..e][|p|..];
    assert rest == m[c2 + HEADER + |p|..e];
    if |rest| == 0 { assert p[..|p|] == p && p + rest == p; }
  }

  lemma LengthKept(m: Memory, bs: seq<nat>, live: set<nat>, m': Memory, c: nat, c2: nat)
    requires Inv(m, bs, live) && c in live && c2 in live && c != c2 && Released(m, m', c)
    ensures |Payload(m', c2)| == |Payload(m, c2)|
  {
    var i := LiveBlock(m, bs, live, c2);
    var j := LiveBlock(m, bs, live, c);
    ReleasedLength(m, m', c, c2);
  }

  // The free at the end of a move, seen from the heap before the call.
  lemma MoveExact(m: Memory, live: set<nat>, c: nat, c2: nat, m1: Memory, m2: Memory, m3: Memory, bs: seq<nat>,
                  size: nat)
    requires c in live && c2 !in live && |m1| == |m| && c2 + HEADER <= |m|
    requires Inv(m1, bs, live + {c2}) && forall q :: q in live ==> Payload(m1, q) == Payload(m, q)
    requires |Payload(m, c)| <= |Payload(m1, c2)| && 8 * |Payload(m1, c2)| >= size
    requires forall x :: c2 + HEADER <= x < |m| && x < Index(m1[c2 + 1]) ==> m1[x] == m[x]
    requires Copied(m1, m2, c + HEADER, c2 + HEADER, |Payload(m, c)|) && Released(m2, m3, c)
    ensures Inv(m2, bs, live + {c2})
    ensures Reallocated(m, live, Done(m3, Address(c2)), c, c2, size) == KeepsAll(m2, m3, live + {c2} - {c})
  {
    assert |m2| == |m1| && |m3| == |m2|;
    hide Inv, Payload, Copied, Released, Contents, Index, Reallocated, KeepsAll;
    var live2 := live + {c2};
    CopyKeeps(m1, bs, live2, m2, c, c2);
    LengthKept(m2, bs, live2, m3, c, c2);
    MoveContents(m, m1, bs, live2, c, c2);
    SameSets(live, c, c2);
    forall q | q in live
      ensures Payload(m2, q) == Payload(m, q)
    {
      assert q in live2 && q != c2;
    }
    MoveMeaning(m, live, c, c2, m2, m3, size);
  }

  lemma SameSets(live: set<nat>, c: nat, c2: nat)
    requires c in live && c2 !in live
    ensures live + {c2} - {c} == live - {c} + {c2}
  {
  }

  lemma MoveContents(m: Memory, m1: Memory, bs: seq<nat>, live2: set<nat>, c: nat, c2: nat)
    requires Inv(m1, bs, live2) && c2 in live2 && |m1| == |m| && c2 + HEADER <= |m|
    requires |Payload(m, c)| <= |Payload(m1, c2)|
    requires forall x :: c2 + HEADER <= x < |m| && x < Index(m1[c2 + 1]) ==> m1[x] == m[x]
    ensures c2 + HEADER + |Payload(m1, c2)| <= |m|
    ensures Contents(m, c, c2, |Payload(m1, c2)|) == Payload(m, c) + Payload(m1, c2)[|Payload(m, c)|..]
  {
    var i := LiveBlock(m1, bs, live2, c2);
    ContentsAfterMove(m, m1, c, c2);
  }

  lemma MoveMeaning(m: Memory, live: set<nat>, c: nat, c2: nat, m2: Memory, m3: Memory, size: nat)
    requires c in live && c2 !in live && |m| == |m2| == |m3|
    requires forall q :: q in live ==> Payload(m2, q) == Payload(m, q)
    requires |Payload(m3, c2)| == |Payload(m2, c2)| && 8 * |Payload(m2, c2)| >= size
    requires c2 + HEADER + |Payload(m2, c2)| <= |m|
    requires Contents(m, c, c2, |Payload(m3, c2)|) == Payload(m2, c2)
    ensures Reallocated(m, live, Done(m3, Address(c2)), c, c2, size) == KeepsAll(m2, m3, live - {c} + {c2})
  {
    var r := Done(m3, Address(c2));
    if Reallocated(m, live, r, c, c2, size) {
      forall q | q in live - {c} + {c2} ensures Payload(m3, q) == Payload(m2, q) {
      }
    }
  }

  lemma ResizedContents(m: Memory, bs: seq<nat>, m': Memory, i: nat, n: nat)
    requires Tiles(m, bs) && i < |bs| - 2 && n % HEADER == 0 == bs[i + 1] % HEADER && Resized(m, m', bs[i], n)
    ensures Payload(m', bs[i]) == Contents(m, bs[i], bs[i], n - bs[i] - HEADER)
  {
    hide Tiles, Resized, Index, Ptr;
    var c, e := bs[i], bs[i + 1];
    TileWords(m, bs, i);
    ResizedHeader(m, m', c, n);
    ResizedWords(m, m', c, e, n);
    PayloadIs(m, c, e);
    PayloadIs(m', c, n);
    hide Payload;
  }

  lemma TileWords(m: Memory, bs: seq<nat>, i: nat)
    requires Tiles(m, bs) && i < |bs| - 2
    ensures bs[i] + HEADER <= bs[i + 1] && bs[i + 1] + HEADER <= |m| && m[bs[i] + 1] == Ptr(bs[i + 1])
  {
  }

  lemma ResizedHeader(m: Memory, m': Memory, c: nat, n: nat)
    requires Resized(m, m', c, n)
    ensures c + HEADER <= n && n + HEADER <= |m| == |m'| && m'[c + 1] == Ptr(n)
  {
  }

  // The words from a block's payload on, up to its new end.
  lemma ResizedWords(m: Memory, m': Memory, c: nat, e: nat, n: nat)
    requires c + HEADER <= e && e + HEADER <= |m| && Resized(m, m', c, n)
    ensures m'[c + HEADER..n] ==
            if n <= e then m[c + HEADER..e][..n - c - HEADER] else m[c + HEADER..e] + m[e..n]
  {
  }

  // Resizing in place: exact.
  lemma ResizeExact(m: Memory, bs: seq<nat>, live: set<nat>, m': Memory, i: nat, n: nat, size: nat)
    requires Inv(m, bs, live) && i < |bs| - 2 && bs[i] in live
    requires n % HEADER == 0 && n != bs[i + 1] && n + HEADER <= bs[i + 2] && Resized(m, m', bs[i], n)
    requires 8 * (n - bs[i] - HEADER) >= size
    ensures Reallocated(m, live, Done(m', Address(bs[i])), bs[i], bs[i], size) <==> bs[i + 1] !in live
  {
    var c := bs[i];
    assert |m'| == |m|;
    hide Payload, Contents, Resized, WellFormed, Reallocated;
    if bs[i + 1] in live {
      ResizedUnsafe(m, bs, live, m', i, n);
      LostIsNotReallocated(m, live, m', c, size);
    } else {
      ResizedContents(m, bs, m', i, n);
      ResizedOwn(m, bs, m', i, n);
      ResizedSafe(m, bs, live, m', i, n);
      KeptIsReallocated(m, live, m', c, size);
    }
  }

  lemma LostIsNotReallocated(m: Memory, live: set<nat>, m': Memory, c: nat, size: nat)
    requires c in live && !WellFormed(m', live)
    ensures !Reallocated(m, live, Done(m', Address(c)), c, c, size)
  {
    hide WellFormed, Payload, Contents;
    assert live - {c} + {c} == live;
  }

  lemma KeptIsReallocated(m: Memory, live: set<nat>, m': Memory, c: nat, size: nat)
    requires c in live && WellFormed(m', live) && |m'| == |m| && 8 * |Payload(m', c)| >= size
    requires forall q :: q in live && q != c ==> Payload(m', q) == Payload(m, q)
    requires c + HEADER + |Payload(m', c)| <= |m| && Payload(m', c) == Contents(m, c, c, |Payload(m', c)|)
    ensures Reallocated(m, live, Done(m', Address(c)), c, c, size)
  {
    hide WellFormed, Payload, Contents;
    assert live - {c} + {c} == live;
  }

  lemma CopyAndFreeIs(m1: Memory, c: nat, c2: nat, k: nat)
    requires c + HEADER + k <= |m1| && c2 + HEADER + k <= |m1|
    requires Releasable(CopyWords(m1, c + HEADER, c2 + HEADER, k), c)
    ensures CopyAndFree(m1, c, k, Address(c2))
         == Done(Release(CopyWords(m1, c + HEADER, c2 + HEADER, k), c), Address(c2))
  {
    hide CopyWords, Releasable, Release;
  }

  lemma MoveKeeps(m: Memory, live: set<nat>, c: nat, c2: nat, m1: Memory, m2: Memory, bs1: seq<nat>)
    requires Inv(m1, bs1, live + {c2}) && c in live && c2 !in live
    requires Payload(m1, c) == Payload(m, c) && |Payload(m, c)| <= |Payload(m1, c2)|
    requires Copied(m1, m2, c + HEADER, c2 + HEADER, |Payload(m, c)|)
    ensures Inv(m2, bs1, live + {c2})
  {
    CopyKeeps(m1, bs1, live + {c2}, m2, c, c2);
  }
}
