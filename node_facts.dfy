/**
  What the placement step of `_insert` and the cut of `node_split` do to a
  node, slot by slot, and why a node with ascending keys keeps them.

  The shape lemmas are stated about `Splice` with the slot given, so that
  the scan is out of their way; the `Place…` lemmas pick the case the scan
  selects and apply them.
 */
module NodeFacts {
  import opened Codec
  import opened Keys
  import opened Layout
  import opened Node

  lemma NeedsSplitIsLastSlot(node: seq<byte>)
    requires |node| == WIDTH
    ensures NeedsSplit(node) <==> Filled(node, ORDER - 1)
  {
  }

  // ---------------------------------------------------------------------
  // Shapes of the three splices

  lemma EntryShape(k: seq<byte>, addr: nat, rptr: nat, leaf: bool)
    requires |k| == HASH
    ensures var e := Entry(k, addr, rptr, leaf);
      && e[..8] == Encode(addr) && e[8..41] == k
      && (!leaf ==> e[41..49] == Encode(rptr))
  {
    var e := Entry(k, addr, rptr, leaf);
    assert e[..8] == Encode(addr);
    assert e[8..41] == k;
    if !leaf {
      assert e[41..49] == Encode(rptr);
    }
  }

  lemma InSlice(r: seq<byte>, a: nat, b: nat, c: nat, d: nat)
    requires a <= b <= |r| && c <= d <= b - a
    ensures r[a..b][c..d] == r[a + c..a + d]
  {
    assert forall t :: 0 <= t < d - c ==> r[a..b][c..d][t] == r[a + c..a + d][t];
  }

  /** Where the entry sits once spliced in at slot s. */
  lemma EntrySpliced(node: seq<byte>, s: nat, k: seq<byte>, addr: nat, rptr: nat, leaf: bool, d: nat)
    requires |node| == WIDTH && |k| == HASH && s < ORDER && (d == 0 || d == SLOT)
    ensures var r := Splice(node, PtrOff(s), Entry(k, addr, rptr, leaf), d);
      && r[..PtrOff(s)] == node[..PtrOff(s)]
      && SlotPtr(r, s) == Encode(addr) && SlotKey(r, s) == k
      && (!leaf ==> SlotPtr(r, s + 1) == Encode(rptr))
  {
    var p := PtrOff(s);
    var e := Entry(k, addr, rptr, leaf);
    var r := Splice(node, p, e, d);
    SpliceShape(node, p, e, d);
    EntryShape(k, addr, rptr, leaf);
    InSlice(r, p, p + |e|, 0, 8);
    InSlice(r, p, p + |e|, 8, 41);
    if !leaf {
      InSlice(r, p, p + |e|, 41, 49);
    }
  }

  /** The entry written over slot s in place. */
  lemma FillShape(node: seq<byte>, s: nat, k: seq<byte>, addr: nat, rptr: nat, leaf: bool)
    requires |node| == WIDTH && |k| == HASH && s < ORDER
    ensures var r := Splice(node, PtrOff(s), Entry(k, addr, rptr, leaf), 0);
      && r[..PtrOff(s)] == node[..PtrOff(s)]
      && SlotPtr(r, s) == Encode(addr) && SlotKey(r, s) == k
      && (leaf ==> r[PtrOff(s + 1)..] == node[PtrOff(s + 1)..])
      && (!leaf ==> SlotPtr(r, s + 1) == Encode(rptr) && r[KeyOff(s + 1)..] == node[KeyOff(s + 1)..])
  {
    var e := Entry(k, addr, rptr, leaf);
    EntrySpliced(node, s, k, addr, rptr, leaf, 0);
    SpliceShape(node, PtrOff(s), e, 0);
    var m := PtrOff(s) + |e|;
    assert node[m..WIDTH] == node[m..];
    assert m == if leaf then PtrOff(s + 1) else KeyOff(s + 1);
  }

  /** Only slot s's pointer rewritten. */
  lemma RepointShape(node: seq<byte>, s: nat, addr: nat)
    requires |node| == WIDTH && s < ORDER
    ensures var r := Splice(node, PtrOff(s), Encode(addr), 0);
      && r[..PtrOff(s)] == node[..PtrOff(s)] && SlotPtr(r, s) == Encode(addr)
      && r[KeyOff(s)..] == node[KeyOff(s)..]
  {
    SpliceShape(node, PtrOff(s), Encode(addr), 0);
    assert node[KeyOff(s)..WIDTH] == node[KeyOff(s)..];
  }

  /** The entry inserted at slot s, the rest moved right by one slot. */
  lemma ShiftShape(node: seq<byte>, s: nat, k: seq<byte>, addr: nat, rptr: nat, leaf: bool)
    requires |node| == WIDTH && |k| == HASH && s < ORDER
    ensures var r := Splice(node, PtrOff(s), Entry(k, addr, rptr, leaf), SLOT);
      && r[..PtrOff(s)] == node[..PtrOff(s)]
      && SlotPtr(r, s) == Encode(addr) && SlotKey(r, s) == k
      && (forall u :: s < u < ORDER ==>
            SlotKey(r, u) == SlotKey(node, u - 1) && (Filled(r, u) <==> Filled(node, u - 1)))
      && (leaf ==> forall u :: s < u <= ORDER ==> SlotPtr(r, u) == SlotPtr(node, u - 1))
      && (!leaf ==> SlotPtr(r, s + 1) == Encode(rptr)
                    && forall u :: s + 1 < u <= ORDER ==> SlotPtr(r, u) == SlotPtr(node, u - 1))
  {
    var e := Entry(k, addr, rptr, leaf);
    var r := Splice(node, PtrOff(s), e, SLOT);
    EntrySpliced(node, s, k, addr, rptr, leaf, SLOT);
    SpliceShape(node, PtrOff(s), e, SLOT);
    ShiftedSlots(node, r, PtrOff(s) + |e|);
  }

  /** Past offset m, r is node moved right by one slot. */
  lemma ShiftedSlots(node: seq<byte>, r: seq<byte>, m: nat)
    requires |node| == WIDTH && |r| == WIDTH && SLOT <= m <= WIDTH
    requires forall j :: m <= j < WIDTH ==> r[j] == node[j - SLOT]
    ensures forall u :: 0 < u < ORDER && m <= KeyOff(u) ==>
      SlotKey(r, u) == SlotKey(node, u - 1) && (Filled(r, u) <==> Filled(node, u - 1))
    ensures forall u :: 0 < u <= ORDER && m <= PtrOff(u) ==> SlotPtr(r, u) == SlotPtr(node, u - 1)
  {
    forall u | 0 < u < ORDER && m <= KeyOff(u)
      ensures SlotKey(r, u) == SlotKey(node, u - 1) && (Filled(r, u) <==> Filled(node, u - 1))
    {
      SliceShift(r, node, -41, KeyOff(u), KeyOff(u) + 33);
    }
    forall u | 0 < u <= ORDER && m <= PtrOff(u)
      ensures SlotPtr(r, u) == SlotPtr(node, u - 1)
    {
      SliceShift(r, node, -41, PtrOff(u), PtrOff(u) + 8);
    }
  }

  // ---------------------------------------------------------------------
  // The three cases of the placement loop

  /** The scan reached an unused slot s: (addr, k) is written into slot s,
      and for an internal node rptr into the pointer that follows; every
      other byte is kept. */
  lemma PlaceEmpty(node: seq<byte>, k: seq<byte>, addr: nat, rptr: nat, leaf: bool)
    requires |node| == WIDTH && |k| == HASH
    requires Scan(node, k, 0) < ORDER && !Filled(node, Scan(node, k, 0))
    ensures var s := Scan(node, k, 0); var r := Place(node, k, addr, rptr, leaf);
      && r[..PtrOff(s)] == node[..PtrOff(s)]
      && SlotPtr(r, s) == Encode(addr) && SlotKey(r, s) == k
      && (leaf ==> r[PtrOff(s + 1)..] == node[PtrOff(s + 1)..])
      && (!leaf ==> SlotPtr(r, s + 1) == Encode(rptr) && r[KeyOff(s + 1)..] == node[KeyOff(s + 1)..])
  {
    var s := Scan(node, k, 0);
    assert Place(node, k, addr, rptr, leaf) == Splice(node, PtrOff(s), Entry(k, addr, rptr, leaf), 0);
    FillShape(node, s, k, addr, rptr, leaf);
  }

  /** The scan reached slot s holding k: a leaf gets addr as that slot's
      pointer and nothing else changes; an internal node is unchanged. */
  lemma PlaceMatch(node: seq<byte>, k: seq<byte>, addr: nat, rptr: nat, leaf: bool)
    requires |node| == WIDTH && |k| == HASH
    requires Scan(node, k, 0) < ORDER && Filled(node, Scan(node, k, 0))
    requires Strncmp(SlotKey(node, Scan(node, k, 0)), k, HASH) == 0
    ensures var s := Scan(node, k, 0); var r := Place(node, k, addr, rptr, leaf);
      && (leaf ==> r[..PtrOff(s)] == node[..PtrOff(s)] && SlotPtr(r, s) == Encode(addr)
                   && r[KeyOff(s)..] == node[KeyOff(s)..])
      && (!leaf ==> r == node)
  {
    var s := Scan(node, k, 0);
    if leaf {
      assert Place(node, k, addr, rptr, leaf) == Splice(node, PtrOff(s), Encode(addr), 0);
      RepointShape(node, s, addr);
    }
  }

  /** The scan reached slot s holding a greater key: the bytes before slot s
      are kept, (addr, k[, rptr]) is inserted there and the rest of the node
      moves right by one slot; its last 41 bytes fall off. */
  lemma PlaceShift(node: seq<byte>, k: seq<byte>, addr: nat, rptr: nat, leaf: bool)
    requires |node| == WIDTH && |k| == HASH
    requires Scan(node, k, 0) < ORDER && Filled(node, Scan(node, k, 0))
    requires Strncmp(SlotKey(node, Scan(node, k, 0)), k, HASH) != 0
    ensures var s := Scan(node, k, 0); var r := Place(node, k, addr, rptr, leaf);
      && r[..PtrOff(s)] == node[..PtrOff(s)]
      && SlotPtr(r, s) == Encode(addr) && SlotKey(r, s) == k
      && (forall u :: s < u < ORDER ==> SlotKey(r, u) == SlotKey(node, u - 1))
      && (leaf ==> forall u :: s < u <= ORDER ==> SlotPtr(r, u) == SlotPtr(node, u - 1))
      && (!leaf ==> SlotPtr(r, s + 1) == Encode(rptr)
                    && forall u :: s + 1 < u <= ORDER ==> SlotPtr(r, u) == SlotPtr(node, u - 1))
  {
    var s := Scan(node, k, 0);
    assert Place(node, k, addr, rptr, leaf) == Splice(node, PtrOff(s), Entry(k, addr, rptr, leaf), SLOT);
    ShiftShape(node, s, k, addr, rptr, leaf);
  }

  /** Every slot holds a smaller key: placement changes nothing. */
  lemma PlaceNoStop(node: seq<byte>, k: seq<byte>, addr: nat, rptr: nat, leaf: bool)
    requires |node| == WIDTH && |k| == HASH && Scan(node, k, 0) == ORDER
    ensures Place(node, k, addr, rptr, leaf) == node
  {
  }

  // ---------------------------------------------------------------------
  // Each splice keeps a node sorted

  /** Filling the first unused slot n with a key above all others. */
  lemma FillSorted(node: seq<byte>, n: nat, k: seq<byte>, addr: nat, rptr: nat, leaf: bool)
    requires |node| == WIDTH && |k| == HASH && NoNul(k) && SortedWith(node, n) && n < ORDER
    requires forall u :: 0 <= u < n ==> Strncmp(KeysOf(node, n)[u], k, HASH) < 0
    ensures var r := Splice(node, PtrOff(n), Entry(k, addr, rptr, leaf), 0);
      SortedWith(r, n + 1) && KeysOf(r, n + 1) == KeysOf(node, n) + [k] && (IsLeaf(r) <==> IsLeaf(node))
  {
    FilledSorted(node, n, k, addr, rptr, leaf, Splice(node, PtrOff(n), Entry(k, addr, rptr, leaf), 0), KeysOf(node, n));
  }

  lemma FilledSorted(node: seq<byte>, n: nat, k: seq<byte>, addr: nat, rptr: nat, leaf: bool,
                     r: seq<byte>, ks: seq<seq<byte>>)
    requires |node| == WIDTH && |k| == HASH && NoNul(k) && SortedWith(node, n) && n < ORDER
    requires r == Splice(node, PtrOff(n), Entry(k, addr, rptr, leaf), 0) && ks == KeysOf(node, n)
    requires forall u :: 0 <= u < n ==> Strncmp(ks[u], k, HASH) < 0
    ensures SortedWith(r, n + 1) && KeysOf(r, n + 1) == ks + [k] && (IsLeaf(r) <==> IsLeaf(node))
  {
    FillSlots(node, n, k, addr, rptr, leaf);
    AppendAscending(ks, k);
    SortedFromKeys(r, n + 1, ks + [k]);
  }

  lemma FillSlots(node: seq<byte>, n: nat, k: seq<byte>, addr: nat, rptr: nat, leaf: bool)
    requires |node| == WIDTH && |k| == HASH && SortedWith(node, n) && n < ORDER
    ensures var r := Splice(node, PtrOff(n), Entry(k, addr, rptr, leaf), 0);
      && (forall u :: 0 <= u < n + 1 ==> SlotKey(r, u) == (KeysOf(node, n) + [k])[u])
      && (forall u :: n + 1 <= u < ORDER ==> !Filled(r, u))
      && (IsLeaf(r) <==> IsLeaf(node))
  {
    var r := Splice(node, PtrOff(n), Entry(k, addr, rptr, leaf), 0);
    var ks := KeysOf(node, n);
    FillShape(node, n, k, addr, rptr, leaf);
    var m := if leaf then PtrOff(n + 1) else KeyOff(n + 1);
    SamePrefix(r, node, PtrOff(n));
    SameSuffix(r, node, m);
    forall u | 0 <= u < n + 1
      ensures SlotKey(r, u) == (ks + [k])[u]
    {
    }
    forall u | n + 1 <= u < ORDER
      ensures !Filled(r, u)
    {
      assert !Filled(node, u);
    }
  }

  lemma FillPtrs(node: seq<byte>, n: nat, k: seq<byte>, addr: nat, rptr: nat, leaf: bool)
    requires |node| == WIDTH && |k| == HASH && n < ORDER
    ensures var r := Splice(node, PtrOff(n), Entry(k, addr, rptr, leaf), 0);
      && (leaf ==> PtrsOf(r, n + 1) == PtrsOf(node, n) + [Encode(addr)])
      && (!leaf ==> PtrsOf(r, n + 2) == PtrsOf(node, n) + [Encode(addr), Encode(rptr)])
  {
    var r := Splice(node, PtrOff(n), Entry(k, addr, rptr, leaf), 0);
    EntrySpliced(node, n, k, addr, rptr, leaf, 0);
    SamePrefix(r, node, PtrOff(n));
    if leaf {
      assert PtrsOf(r, n + 1) == PtrsOf(node, n) + [Encode(addr)];
    } else {
      assert PtrsOf(r, n + 2) == PtrsOf(node, n) + [Encode(addr), Encode(rptr)];
    }
  }

  /** Repointing slot s keeps every key. */
  lemma RepointSorted(node: seq<byte>, n: nat, s: nat, addr: nat)
    requires |node| == WIDTH && SortedWith(node, n) && s < n
    ensures var r := Splice(node, PtrOff(s), Encode(addr), 0);
      && SortedWith(r, n) && KeysOf(r, n) == KeysOf(node, n) && (IsLeaf(r) <==> IsLeaf(node))
      && PtrsOf(r, n) == PtrsOf(node, n)[s := Encode(addr)]
  {
    var r := Splice(node, PtrOff(s), Encode(addr), 0);
    RepointSlots(node, n, s, addr);
    SortedFromKeys(r, n, KeysOf(node, n));
    assert PtrsOf(r, n) == PtrsOf(node, n)[s := Encode(addr)];
  }

  lemma RepointSlots(node: seq<byte>, n: nat, s: nat, addr: nat)
    requires |node| == WIDTH && SortedWith(node, n) && s < n
    ensures var r := Splice(node, PtrOff(s), Encode(addr), 0);
      && (forall u :: 0 <= u < n ==> SlotKey(r, u) == KeysOf(node, n)[u])
      && (forall u :: n <= u < ORDER ==> !Filled(r, u))
      && (forall u :: 0 <= u <= ORDER && u != s ==> SlotPtr(r, u) == SlotPtr(node, u))
      && SlotPtr(r, s) == Encode(addr)
      && (IsLeaf(r) <==> IsLeaf(node))
  {
    var r := Splice(node, PtrOff(s), Encode(addr), 0);
    RepointShape(node, s, addr);
    SamePrefix(r, node, PtrOff(s));
    SameSuffix(r, node, KeyOff(s));
    forall u | 0 <= u < n
      ensures SlotKey(r, u) == KeysOf(node, n)[u]
    {
      if u < s { assert KeyOff(u) + 33 <= PtrOff(s); } else { assert KeyOff(s) <= KeyOff(u); }
    }
    forall u | n <= u < ORDER
      ensures !Filled(r, u)
    {
      assert KeyOff(s) <= KeyOff(u) && !Filled(node, u);
    }
    forall u | 0 <= u <= ORDER && u != s
      ensures SlotPtr(r, u) == SlotPtr(node, u)
    {
      if u < s { assert PtrOff(u) + 8 <= PtrOff(s); } else { assert KeyOff(s) <= PtrOff(u); }
    }
  }

  /** Inserting k at slot s, below the key there and above those before. */
  lemma ShiftSorted(node: seq<byte>, n: nat, s: nat, k: seq<byte>, addr: nat, rptr: nat, leaf: bool)
    requires |node| == WIDTH && |k| == HASH && NoNul(k) && SortedWith(node, n) && s < n < ORDER
    requires forall u :: 0 <= u < s ==> Strncmp(KeysOf(node, n)[u], k, HASH) < 0
    requires Strncmp(k, KeysOf(node, n)[s], HASH) < 0
    ensures var r := Splice(node, PtrOff(s), Entry(k, addr, rptr, leaf), SLOT); var ks := KeysOf(node, n);
      SortedWith(r, n + 1) && KeysOf(r, n + 1) == Inserted(ks, s, k) && (IsLeaf(r) <==> IsLeaf(node))
  {
    var r := Splice(node, PtrOff(s), Entry(k, addr, rptr, leaf), SLOT);
    var ks := KeysOf(node, n);
    InsertAscending(ks, s, k);
    ShiftSlots(node, n, s, k, addr, rptr, leaf);
    SortedFromKeys(r, n + 1, Inserted(ks, s, k));
  }

  lemma ShiftSlots(node: seq<byte>, n: nat, s: nat, k: seq<byte>, addr: nat, rptr: nat, leaf: bool)
    requires |node| == WIDTH && |k| == HASH && SortedWith(node, n) && s < n < ORDER
    ensures var r := Splice(node, PtrOff(s), Entry(k, addr, rptr, leaf), SLOT); var ks := KeysOf(node, n);
      && (forall u :: 0 <= u < n + 1 ==> SlotKey(r, u) == Inserted(ks, s, k)[u])
      && (forall u :: n + 1 <= u < ORDER ==> !Filled(r, u))
      && (IsLeaf(r) <==> IsLeaf(node))
  {
    var r := Splice(node, PtrOff(s), Entry(k, addr, rptr, leaf), SLOT);
    var ks := KeysOf(node, n);
    ShiftShape(node, s, k, addr, rptr, leaf);
    SamePrefix(r, node, PtrOff(s));
    forall u | 0 <= u < n + 1
      ensures SlotKey(r, u) == Inserted(ks, s, k)[u]
    {
    }
    forall u | n + 1 <= u < ORDER
      ensures !Filled(r, u)
    {
      assert !Filled(node, u - 1);
    }
  }

  lemma ShiftPtrs(node: seq<byte>, n: nat, s: nat, k: seq<byte>, addr: nat, rptr: nat, leaf: bool)
    requires |node| == WIDTH && |k| == HASH && s < n < ORDER
    ensures var r := Splice(node, PtrOff(s), Entry(k, addr, rptr, leaf), SLOT); var ps := PtrsOf(node, n + 1);
      && (leaf ==> PtrsOf(r, n + 1) == ps[..s] + [Encode(addr)] + ps[s..n])
      && (!leaf ==> PtrsOf(r, n + 2) == ps[..s] + [Encode(addr), Encode(rptr)] + ps[s + 1..])
  {
    var r := Splice(node, PtrOff(s), Entry(k, addr, rptr, leaf), SLOT);
    var ps := PtrsOf(node, n + 1);
    if leaf {
      ShiftLeafPtrs(node, n, s, k, addr, rptr, r, ps);
    } else {
      ShiftInnerPtrs(node, n, s, k, addr, rptr, r, ps);
    }
  }

  /** In a leaf the new pointer goes in at s and the others move right. */
  lemma ShiftLeafPtrs(node: seq<byte>, n: nat, s: nat, k: seq<byte>, addr: nat, rptr: nat,
                      r: seq<byte>, ps: seq<seq<byte>>)
    requires |node| == WIDTH && |k| == HASH && s < n < ORDER
    requires r == Splice(node, PtrOff(s), Entry(k, addr, rptr, true), SLOT) && ps == PtrsOf(node, n + 1)
    ensures PtrsOf(r, n + 1) == ps[..s] + [Encode(addr)] + ps[s..n]
  {
    ShiftShape(node, s, k, addr, rptr, true);
    SamePrefix(r, node, PtrOff(s));
    var qs := ps[..s] + [Encode(addr)] + ps[s..n];
    forall u | 0 <= u < n + 1
      ensures SlotPtr(r, u) == qs[u]
    {
      if u > s { assert qs[u] == ps[u - 1]; }
    }
    assert PtrsOf(r, n + 1) == qs;
  }

  /** In an internal node the pair (addr, rptr) replaces the pointer at s
      and the pointers after it move right. */
  lemma ShiftInnerPtrs(node: seq<byte>, n: nat, s: nat, k: seq<byte>, addr: nat, rptr: nat,
                       r: seq<byte>, ps: seq<seq<byte>>)
    requires |node| == WIDTH && |k| == HASH && s < n < ORDER
    requires r == Splice(node, PtrOff(s), Entry(k, addr, rptr, false), SLOT) && ps == PtrsOf(node, n + 1)
    ensures PtrsOf(r, n + 2) == ps[..s] + [Encode(addr), Encode(rptr)] + ps[s + 1..]
  {
    ShiftShape(node, s, k, addr, rptr, false);
    SamePrefix(r, node, PtrOff(s));
    var qs := ps[..s] + [Encode(addr), Encode(rptr)] + ps[s + 1..];
    forall u | 0 <= u < n + 2
      ensures SlotPtr(r, u) == qs[u]
    {
      if u > s + 1 { assert qs[u] == ps[u - 1]; }
    }
    assert PtrsOf(r, n + 2) == qs;
  }

  // ---------------------------------------------------------------------
  // Placement keeps a node sorted

  /** Placing k into a sorted node with room: if k is there the keys stay as
      they are, otherwise k joins them at the slot the scan stopped at. */
  lemma PlaceSorted(node: seq<byte>, k: seq<byte>, addr: nat, rptr: nat, leaf: bool, n: nat)
    requires |node| == WIDTH && |k| == HASH && NoNul(k) && SortedWith(node, n) && n < ORDER
    ensures Scan(node, k, 0) <= n
    ensures var s := Scan(node, k, 0); var ks := KeysOf(node, n); var r := Place(node, k, addr, rptr, leaf);
      && (IsLeaf(r) <==> IsLeaf(node))
      && (k in ks ==> SortedWith(r, n) && KeysOf(r, n) == ks)
      && (k !in ks ==> SortedWith(r, n + 1) && KeysOf(r, n + 1) == Inserted(ks, s, k))
  {
    var s := Scan(node, k, 0);
    var ks := KeysOf(node, n);
    ScanSortedBounds(node, k, n);
    ScanSortedSpec(node, k, n);
    assert k[..HASH] == k;
    if s == n {
      assert Place(node, k, addr, rptr, leaf) == Splice(node, PtrOff(n), Entry(k, addr, rptr, leaf), 0);
      FillSorted(node, n, k, addr, rptr, leaf);
      assert Inserted(ks, n, k) == ks + [k];
    } else if ks[s] == k {
      StrncmpZero(SlotKey(node, s), k, HASH);
      if leaf {
        assert Place(node, k, addr, rptr, leaf) == Splice(node, PtrOff(s), Encode(addr), 0);
        RepointSorted(node, n, s, addr);
      }
    } else {
      StrncmpZero(SlotKey(node, s), k, HASH);
      assert ks[s][..HASH] == ks[s];
      StrncmpZero(k, ks[s], HASH);
      assert Place(node, k, addr, rptr, leaf) == Splice(node, PtrOff(s), Entry(k, addr, rptr, leaf), SLOT);
      ShiftSorted(node, n, s, k, addr, rptr, leaf);
    }
  }

  /** The pointers after placing k: a leaf's slot for k gets addr and every
      other key keeps its pointer; in an internal node the child pointer at
      the new slot is replaced by addr followed by rptr. */
  lemma PlacePtrs(node: seq<byte>, k: seq<byte>, addr: nat, rptr: nat, leaf: bool, n: nat)
    requires |node| == WIDTH && |k| == HASH && NoNul(k) && SortedWith(node, n) && n < ORDER
    ensures Scan(node, k, 0) <= n
    ensures k in KeysOf(node, n) ==> Scan(node, k, 0) < n
    ensures var s := Scan(node, k, 0); var ks := KeysOf(node, n); var ps := PtrsOf(node, n + 1);
      var r := Place(node, k, addr, rptr, leaf);
      && (k in ks && leaf ==> PtrsOf(r, n) == ps[..n][s := Encode(addr)])
      && (k in ks && !leaf ==> r == node)
      && (k !in ks && leaf ==> PtrsOf(r, n + 1) == ps[..s] + [Encode(addr)] + ps[s..n])
      && (k !in ks && !leaf ==> PtrsOf(r, n + 2) == ps[..s] + [Encode(addr), Encode(rptr)] + ps[s + 1..])
  {
    var s := Scan(node, k, 0);
    var ks := KeysOf(node, n);
    var ps := PtrsOf(node, n + 1);
    ScanSortedBounds(node, k, n);
    ScanSortedSpec(node, k, n);
    assert k[..HASH] == k;
    assert ps[..n] == PtrsOf(node, n);
    if s == n {
      assert Place(node, k, addr, rptr, leaf) == Splice(node, PtrOff(n), Entry(k, addr, rptr, leaf), 0);
      FillPtrs(node, n, k, addr, rptr, leaf);
    } else if ks[s] == k {
      StrncmpZero(SlotKey(node, s), k, HASH);
      if leaf {
        assert Place(node, k, addr, rptr, leaf) == Splice(node, PtrOff(s), Encode(addr), 0);
        RepointSorted(node, n, s, addr);
      }
    } else {
      StrncmpZero(SlotKey(node, s), k, HASH);
      assert Place(node, k, addr, rptr, leaf) == Splice(node, PtrOff(s), Entry(k, addr, rptr, leaf), SLOT);
      ShiftPtrs(node, n, s, k, addr, rptr, leaf);
    }
  }

  /** After placement the scan for k stops at the slot that now holds k. */
  lemma PlaceFinds(node: seq<byte>, k: seq<byte>, addr: nat, rptr: nat, leaf: bool, n: nat)
    requires |node| == WIDTH && |k| == HASH && NoNul(k) && SortedWith(node, n) && n < ORDER
    ensures var s := Scan(node, k, 0); var r := Place(node, k, addr, rptr, leaf);
      var m := if k in KeysOf(node, n) then n else n + 1;
      && SortedWith(r, m) && s < m && KeysOf(r, m)[s] == k && Scan(r, k, 0) == s
  {
    var s := Scan(node, k, 0);
    var ks := KeysOf(node, n);
    var r := Place(node, k, addr, rptr, leaf);
    var m := if k in ks then n else n + 1;
    PlaceSorted(node, k, addr, rptr, leaf, n);
    ScanSortedSpec(node, k, n);
    var ks' := KeysOf(r, m);
    assert s < m && ks'[s] == k;
    ScanSortedSpec(r, k, m);
    AscendingDistinct(ks', s, Scan(r, k, 0));
  }
}
