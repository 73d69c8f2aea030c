/**
  What `put`, `get` and `delete` promise on a tree that is still one leaf:
  the root node is a leaf whose used slots hold ascending keys, with the pointers
  of each used slot naming a place in the file after the root node.  On such
  a tree a `get` after a `put` of a key that is not live returns the value
  put, a `get` after a `delete` returns nothing, and both operations keep
  the tree one leaf (as long as the leaf does not fill up).
 */
module Properties {
  import opened Codec
  import opened Keys
  import opened Layout
  import opened Node
  import opened NodeFacts
  import opened Engine
  import opened EngineFacts

  /** The most significant byte of every slot pointer is zero, as it is for
      any address below 2^56.  `delete`'s misaligned scan reads these bytes. */
  predicate HighZero(node: seq<byte>)
    requires |node| == WIDTH
  {
    forall u :: 0 <= u <= ORDER ==> node[PtrOff(u)] == 0
  }

  function RootLeaf(st: State): (node: seq<byte>)
    requires st.root + WIDTH <= |st.file|
    ensures |node| == WIDTH
  {
    st.file[st.root..st.root + WIDTH]
  }

  /** The tree is the single leaf at the root, holding n ascending keys whose
      pointers name addresses after the root node and inside the file. */
  ghost predicate OneLeaf(st: State, n: nat)
  {
    && Wf(st) && st.root + WIDTH <= |st.file| && |st.file| < Pow2(56)
    && var node := RootLeaf(st);
    && IsLeaf(node) && n < ORDER && SortedWith(node, n) && HighZero(node)
    && forall u :: 0 <= u < n ==> st.root + WIDTH <= Decode(SlotPtr(node, u)) < |st.file|
  }

  // ---------------------------------------------------------------------
  // db_init

  lemma Pow2_13()
    ensures Pow2(13) == 8192
  {
    Pow2_8();
    assert Pow2(13) == 32 * Pow2(8) by { Pow2Add(5, 8); }
  }

  /** The node `db_init` writes is a leaf with no used slot and zero
      pointer bytes. */
  lemma EmptyLeafShape(node: seq<byte>)
    requires node == EmptyLeaf()
    ensures IsLeaf(node) && SortedWith(node, 0) && HighZero(node)
  {
    assert forall j :: 1 <= j < WIDTH ==> node[j] == 0;
    assert forall u :: 0 <= u < ORDER ==> !Filled(node, u) by {
      forall u | 0 <= u < ORDER ensures !Filled(node, u) {
        assert node[KeyOff(u)] == 0;
      }
    }
    assert KeysOf(node, 0) == [];
  }

  /** A newly created file is one empty leaf. */
  lemma InitOneLeaf()
    ensures OneLeaf(InitSpec(None), 0)
  {
    var st := InitSpec(None);
    Pow2_13();
    Pow2Mono(13, 56);
    assert |st.file| < Pow2(56);
    var node := RootLeaf(st);
    assert node == EmptyLeaf();
    EmptyLeafShape(node);
  }

  // ---------------------------------------------------------------------
  // search on one leaf

  /** `search` on a one-leaf tree: the scan stops at slot s; the key is live
      (0) when slot s holds it and its record's exists byte is set, and it is
      reported absent (1) otherwise. */
  lemma LeafSearch(st: State, n: nat, key: seq<byte>)
    requires OneLeaf(st, n) && NoNul(key)
    ensures
      var node := RootLeaf(st); var k := IndexKey(key); var s := Scan(node, k, 0);
      var r := SearchSpec(st, key);
      && s <= n && r.Defined? && r.value.st == ReadNode(st, 0, st.root) && r.value.index == 0
      && (k in KeysOf(node, n) <==> s < n && SlotKey(node, s) == k)
      && r.value.ret == (if k in KeysOf(node, n) && st.file[Decode(SlotPtr(node, s))] != 0 then 0 else 1)
  {
    var node := RootLeaf(st);
    var k := IndexKey(key);
    var s := Scan(node, k, 0);
    var st0 := ReadNode(st, 0, st.root);
    IndexKeyNoNul(key);
    LeafScanHit(node, n, k, s);
    assert SearchSpec(st, key) == Descend(st0, k, 0);
    assert st0.path[0] == node;
    if Strncmp(SlotKey(node, s), k, HASH) == 0 {
      DescendLeafHit(st0, k, 0, s, Decode(SlotPtr(node, s)));
    } else {
      DescendLeafMiss(st0, k, 0, s);
    }
  }

  /** In a leaf with n ascending keys, the slot the scan stops at matches k
      exactly when k is one of the keys. */
  lemma LeafScanHit(node: seq<byte>, n: nat, k: seq<byte>, s: nat)
    requires |node| == WIDTH && |k| == HASH && NoNul(k) && SortedWith(node, n) && n < ORDER
    requires s == Scan(node, k, 0)
    ensures s <= n
    ensures Strncmp(SlotKey(node, s), k, HASH) == 0 <==> k in KeysOf(node, n)
    ensures k in KeysOf(node, n) <==> s < n && SlotKey(node, s) == k
  {
    ScanSortedSpec(node, k, n);
    assert k[..HASH] == k;
    if s < n {
      assert SlotKey(node, s) == KeysOf(node, n)[s];
      StrncmpZero(SlotKey(node, s), k, HASH);
      assert SlotKey(node, s)[..HASH] == SlotKey(node, s);
    } else {
      assert !Filled(node, s);
      assert SlotKey(node, s)[0] == 0 && k[0] != 0;
    }
  }

  // ---------------------------------------------------------------------
  // put on one leaf

  /** `_insert` into a node that does not fill up only writes the node back. */
  lemma InsertNoSplit(st: State, key: seq<byte>, index: nat, addr: nat)
    requires Wf(st) && index <= DEPTH && NoNul(key)
    requires !NeedsSplit(Place(st.path[index], IndexKey(key), addr, 0, true))
    ensures var r := InsertSpec(st, key, index, addr, 0, true);
      && r.root == st.root
      && r.file == WriteAt(st.file, st.addrs[index], Place(st.path[index], IndexKey(key), addr, 0, true))
  {
  }

  /** Writing e (at most one slot long, with a zero first byte) at a slot's
      pointer keeps every pointer's high byte zero, in place or shifting. */
  lemma SpliceHighZero(node: seq<byte>, s: nat, e: seq<byte>, d: nat)
    requires |node| == WIDTH && HighZero(node) && s < ORDER
    requires 0 < |e| <= SLOT && e[0] == 0 && (d == 0 || d == |e| == SLOT)
    ensures HighZero(Splice(node, PtrOff(s), e, d))
  {
    var r := Splice(node, PtrOff(s), e, d);
    forall u | 0 <= u <= ORDER
      ensures r[PtrOff(u)] == 0
    {
      SpliceAt(node, PtrOff(s), e, d, PtrOff(u));
      if u > s && d == SLOT {
        assert PtrOff(u) - d == PtrOff(u - 1);
      }
    }
  }

  /** Placing a leaf entry whose address is below 2^56 keeps HighZero. */
  lemma PlaceHighZero(node: seq<byte>, k: seq<byte>, addr: nat)
    requires |node| == WIDTH && |k| == HASH && HighZero(node) && addr < Pow2(56)
    ensures HighZero(Place(node, k, addr, 0, true))
  {
    var s := Scan(node, k, 0);
    EncodeHighByte(addr);
    if s < ORDER {
      var e := Entry(k, addr, 0, true);
      assert e[0] == Encode(addr)[0];
      if !Filled(node, s) {
        SpliceHighZero(node, s, e, 0);
      } else if Strncmp(SlotKey(node, s), k, HASH) == 0 {
        SpliceHighZero(node, s, Encode(addr), 0);
      } else {
        SpliceHighZero(node, s, e, SLOT);
      }
    }
  }

  /** `put` where the key is not live: the record is appended and the placed
      leaf written back over the root. */
  lemma LeafPut(st: State, n: nat, key: seq<byte>, value: seq<byte>)
    requires OneLeaf(st, n) && NoNul(key) && NoNul(value) && n < ORDER - 1
    requires SearchSpec(st, key).Defined? && SearchSpec(st, key).value.ret != 0
    requires |key| + |value| <= MAX
    ensures var node := Place(RootLeaf(st), IndexKey(key), |st.file|, 0, true);
      var st' := PutSpec(st, key, value);
      && st'.Defined? && st'.value.root == st.root
      && st'.value.file == WriteAt(st.file + Record(key, value), st.root, node)
  {
    var node := RootLeaf(st);
    var k := IndexKey(key);
    IndexKeyNoNul(key);
    LeafSearch(st, n, key);
    var f := SearchSpec(st, key).value;
    PutActs(st, key, value);
    var st1 := f.st.(file := f.st.file + Record(key, value));
    var r := Place(node, k, |st.file|, 0, true);
    PlaceSorted(node, k, |st.file|, 0, true, n);
    assert !Filled(r, ORDER - 1);
    NeedsSplitIsLastSlot(r);
    InsertNoSplit(st1, key, 0, |st.file|);
  }

  /** Every pointer in ps decodes into [lo, hi). */
  predicate InRange(ps: seq<seq<byte>>, lo: nat, hi: nat)
  {
    forall i :: 0 <= i < |ps| ==> lo <= Decode(ps[i]) < hi
  }

  lemma InRangeUpdate(ps: seq<seq<byte>>, s: nat, x: seq<byte>, lo: nat, hi: nat)
    requires InRange(ps, lo, hi) && s < |ps| && lo <= Decode(x) < hi
    ensures InRange(ps[s := x], lo, hi)
  {
  }

  lemma InRangeInsert(ps: seq<seq<byte>>, n: nat, s: nat, x: seq<byte>, lo: nat, hi: nat)
    requires s <= n <= |ps| && InRange(ps[..n], lo, hi) && lo <= Decode(x) < hi
    ensures InRange(ps[..s] + [x] + ps[s..n], lo, hi)
  {
    var qs := ps[..s] + [x] + ps[s..n];
    forall i | 0 <= i < |qs|
      ensures lo <= Decode(qs[i]) < hi
    {
      if i < s {
        assert qs[i] == ps[..n][i];
      } else if i > s {
        assert qs[i] == ps[..n][i - 1];
      }
    }
  }

  /** After a leaf placement every used slot's pointer is an old pointer
      or the new address, so a range holding all of them still does. */
  lemma PlacePtrBounds(node: seq<byte>, k: seq<byte>, addr: nat, n: nat, lo: nat, hi: nat)
    requires |node| == WIDTH && |k| == HASH && NoNul(k) && SortedWith(node, n) && n < ORDER
    requires InRange(PtrsOf(node, n), lo, hi)
    requires lo <= addr < hi && addr < TWO_64
    ensures var m := if k in KeysOf(node, n) then n else n + 1;
      InRange(PtrsOf(Place(node, k, addr, 0, true), m), lo, hi)
  {
    var ps := PtrsOf(node, n + 1);
    PlacePtrs(node, k, addr, 0, true, n);
    DecodeEncode(addr);
    assert ps[..n] == PtrsOf(node, n);
    var s := Scan(node, k, 0);
    if k in KeysOf(node, n) {
      InRangeUpdate(ps[..n], s, Encode(addr), lo, hi);
    } else {
      InRangeInsert(ps, n, s, Encode(addr), lo, hi);
    }
  }

  /** The pointer bounds of `OneLeaf` as an `InRange` fact. */
  lemma SlotsInRange(node: seq<byte>, n: nat, lo: nat, hi: nat)
    requires |node| == WIDTH && n <= ORDER
    ensures InRange(PtrsOf(node, n), lo, hi) <==>
      forall u :: 0 <= u < n ==> lo <= Decode(SlotPtr(node, u)) < hi
  {
  }

  /** `put` keeps the tree one leaf; the leaf gains a key exactly when the
      key was not live and not already in the leaf. */
  lemma PutKeepsOneLeaf(st: State, n: nat, key: seq<byte>, value: seq<byte>)
    requires OneLeaf(st, n) && NoNul(key) && NoNul(value) && n < ORDER - 1
    requires |st.file| + |Record(key, value)| < Pow2(56)
    ensures SearchSpec(st, key).Defined? && PutSpec(st, key, value).Defined?
    ensures var grows := SearchSpec(st, key).value.ret != 0 && |key| + |value| <= MAX
                         && IndexKey(key) !in KeysOf(RootLeaf(st), n);
      OneLeaf(PutSpec(st, key, value).value, if grows then n + 1 else n)
  {
    LeafSearch(st, n, key);
    var f := SearchSpec(st, key).value;
    if f.ret == 0 || |key| + |value| > MAX {
      PutNoop(st, key, value);
      SameFileOneLeaf(st, n, PutSpec(st, key, value).value);
    } else {
      var node := RootLeaf(st);
      var k := IndexKey(key);
      LeafPut(st, n, key, value);
      var m := if k in KeysOf(node, n) then n else n + 1;
      PlacedLeaf(st, n, key, value, node, k, |st.file|, m, PutSpec(st, key, value).value);
    }
  }

  /** Being one leaf depends on the file and the root address only. */
  lemma SameFileOneLeaf(st: State, n: nat, st': State)
    requires OneLeaf(st, n) && Wf(st') && st'.file == st.file && st'.root == st.root
    ensures OneLeaf(st', n)
  {
    assert RootLeaf(st') == RootLeaf(st);
  }

  /** The state `put` leaves in a one-leaf tree when it acts: the record
      appended and the leaf rewritten with the key placed is one leaf with
      m keys. */
  lemma PlacedLeaf(st: State, n: nat, key: seq<byte>, value: seq<byte>, node: seq<byte>, k: seq<byte>,
                   e: nat, m: nat, st': State)
    requires OneLeaf(st, n) && NoNul(key) && n < ORDER - 1
    requires node == RootLeaf(st) && k == IndexKey(key) && e == |st.file|
    requires m == (if k in KeysOf(node, n) then n else n + 1)
    requires |st.file| + |Record(key, value)| < Pow2(56)
    requires Wf(st') && st'.root == st.root
    requires st'.file == WriteAt(st.file + Record(key, value), st.root, Place(node, k, e, 0, true))
    ensures OneLeaf(st', m)
  {
    IndexKeyNoNul(key);
    var r := Place(node, k, e, 0, true);
    assert RootLeaf(st') == r;
    PlaceSorted(node, k, e, 0, true, n);
    PlaceHighZero(node, k, e);
    Pow2Mono(56, 64);
    Pow2_64();
    SlotsInRange(node, n, st.root + WIDTH, |st'.file|);
    PlacePtrBounds(node, k, e, n, st.root + WIDTH, |st'.file|);
    SlotsInRange(r, m, st.root + WIDTH, |st'.file|);
  }

  // ---------------------------------------------------------------------
  // get after put

  /** `get` pads its key before it searches; padding twice changes nothing. */
  lemma IndexKeyNormalize(key: seq<byte>)
    ensures IndexKey(Normalize(key)) == IndexKey(key)
  {
    NormalizeIdempotent(key);
  }

  lemma {:induction false} FirstMatchFrom(node: seq<byte>, k: seq<byte>, u: nat, s: nat)
    requires |node| == WIDTH && |k| == HASH && u <= s < ORDER
    requires forall v :: u <= v < s ==> Strncmp(SlotKey(node, v), k, HASH) != 0
    requires Strncmp(SlotKey(node, s), k, HASH) == 0
    ensures FirstMatch(node, k, u) == s
    decreases s - u
  {
    if u < s {
      FirstMatchFrom(node, k, u + 1, s);
    }
  }

  /** In a sorted node `get`'s first-match loop finds a present key where
      the sorted scan stops. */
  lemma FirstMatchSorted(node: seq<byte>, n: nat, k: seq<byte>)
    requires |node| == WIDTH && |k| == HASH && NoNul(k) && SortedWith(node, n) && k in KeysOf(node, n)
    ensures FirstMatch(node, k, 0) == Scan(node, k, 0)
  {
    var s := Scan(node, k, 0);
    var ks := KeysOf(node, n);
    ScanSortedSpec(node, k, n);
    ScanSortedBounds(node, k, n);
    assert k[..HASH] == k && ks[s][..HASH] == ks[s];
    StrncmpZero(ks[s], k, HASH);
    FirstMatchFrom(node, k, 0, s);
  }

  /** A leaf placement leaves the new address in the slot the scan chose. */
  lemma PlaceLeafPtr(node: seq<byte>, k: seq<byte>, addr: nat, n: nat)
    requires |node| == WIDTH && |k| == HASH && NoNul(k) && SortedWith(node, n) && n < ORDER
    ensures Scan(node, k, 0) < ORDER
    ensures SlotPtr(Place(node, k, addr, 0, true), Scan(node, k, 0)) == Encode(addr)
  {
    var s := Scan(node, k, 0);
    var r := Place(node, k, addr, 0, true);
    var ps := PtrsOf(node, n + 1);
    PlacePtrs(node, k, addr, 0, true, n);
    if k in KeysOf(node, n) {
      assert SlotPtr(r, s) == PtrsOf(r, n)[s];
    } else {
      assert SlotPtr(r, s) == PtrsOf(r, n + 1)[s] == (ps[..s] + [Encode(addr)] + ps[s..n])[s];
    }
  }

  /** `get` in a one-leaf tree finds the slot of a present key and reads
      the record its pointer names, when that record is live. */
  lemma LeafGet(st: State, n: nat, key: seq<byte>, node: seq<byte>, k: seq<byte>, e: nat, value: seq<byte>)
    requires OneLeaf(st, n) && NoNul(key) && node == RootLeaf(st) && k == IndexKey(key)
    requires k in KeysOf(node, n) && Decode(SlotPtr(node, Scan(node, k, 0))) == e
    requires e < |st.file| && st.file[e] != 0 && ReadRecord(st.file, e) == Defined(Some(value))
    ensures var g := GetSpec(st, key); g.Defined? && g.value.value == Some(value)
  {
    IndexKeyNoNul(key);
    IndexKeyNormalize(key);
    LeafSearch(st, n, Normalize(key));
    FirstMatchSorted(node, n, k);
  }

  /** `get` after `put` of a key that is not live returns the value put. */
  lemma PutThenGet(st: State, n: nat, key: seq<byte>, value: seq<byte>)
    requires OneLeaf(st, n) && NoNul(key) && NoNul(value) && n < ORDER - 1
    requires |st.file| + |Record(key, value)| < Pow2(56)
    requires SearchSpec(st, key).Defined? && SearchSpec(st, key).value.ret != 0
    requires |key| + |value| <= MAX
    ensures PutSpec(st, key, value).Defined?
    ensures var g := GetSpec(PutSpec(st, key, value).value, key);
      g.Defined? && g.value.value == Some(value)
  {
    var node := RootLeaf(st);
    var k := IndexKey(key);
    IndexKeyNoNul(key);
    var e := |st.file|;
    var r := Place(node, k, e, 0, true);
    var m := if k in KeysOf(node, n) then n else n + 1;
    PutKeepsOneLeaf(st, n, key, value);
    LeafPut(st, n, key, value);
    var st' := PutSpec(st, key, value).value;
    assert OneLeaf(st', m);
    assert RootLeaf(st') == r;
    PlaceFinds(node, k, e, 0, true, n);
    assert k in KeysOf(r, m);
    PlaceLeafPtr(node, k, e, n);
    Pow2Mono(56, 64);
    Pow2_64();
    DecodeEncode(e);
    var rec := Record(key, value);
    var hi := e + |rec|;
    PutAppendsRecord(st, key, value, rec, e, hi, st');
    assert st'.file[e] == rec[0] == 1;
    LeafGet(st', m, key, r, k, e, value);
  }

  // ---------------------------------------------------------------------
  // get after delete

  /** After a match `delete` goes on eight bytes early, at the next slot's
      pointer; each such comparison starts on a zero high byte, so it
      neither matches nor reads past the node. */
  lemma {:induction false} DelMisaligned(file: seq<byte>, node: seq<byte>, k: seq<byte>, u: nat)
    requires |node| == WIDTH && |k| == HASH && NoNul(k) && HighZero(node) && 1 <= u <= ORDER + 1
    ensures DelLoop(file, node, k, PtrOff(u)) == Defined(file)
    decreases ORDER + 1 - u
  {
    var i := PtrOff(u);
    if i < WIDTH {
      var a := node[i..];
      assert a[0] == 0 && k[0] != 0;
      assert Within(a, k, HASH);
      assert Strncmp(a, k, HASH) != 0;
      DelMisaligned(file, node, k, u + 1);
    }
  }

  /** Before the match `delete` steps over whole slots; at the slot holding
      k it writes the tombstone at the record that slot points to. */
  lemma {:induction false} DelAligned(file: seq<byte>, node: seq<byte>, k: seq<byte>, u: nat, s: nat)
    requires |node| == WIDTH && |k| == HASH && NoNul(k) && HighZero(node) && u <= s < ORDER
    requires forall v :: u <= v < s ==> SlotKey(node, v) != k
    requires SlotKey(node, s) == k
    ensures DelLoop(file, node, k, KeyOff(u)) == Defined(WriteAt(file, Decode(SlotPtr(node, s)), [0]))
    decreases s - u
  {
    if u < s {
      DelPass(file, node, k, u);
      DelAligned(file, node, k, u + 1, s);
    } else {
      var file' := WriteAt(file, Decode(SlotPtr(node, s)), [0]);
      DelHit(file, node, k, s);
      DelMisaligned(file', node, k, s + 1);
    }
  }

  /** `delete` steps over a slot holding another key. */
  lemma DelPass(file: seq<byte>, node: seq<byte>, k: seq<byte>, u: nat)
    requires |node| == WIDTH && |k| == HASH && NoNul(k) && u + 1 < ORDER && SlotKey(node, u) != k
    ensures DelLoop(file, node, k, KeyOff(u)) == DelLoop(file, node, k, KeyOff(u + 1))
  {
    var i := KeyOff(u);
    SlotSlices(node, u, i);
    assert node[i..][..HASH] == SlotKey(node, u) && k[..HASH] == k;
    StrncmpZero(node[i..], k, HASH);
  }

  /** `delete` at the slot holding k: the tombstone goes to the record the
      slot points to, and the loop goes on at the next slot's pointer. */
  lemma DelHit(file: seq<byte>, node: seq<byte>, k: seq<byte>, s: nat)
    requires |node| == WIDTH && |k| == HASH && NoNul(k) && s < ORDER && SlotKey(node, s) == k
    ensures DelLoop(file, node, k, KeyOff(s)) ==
      DelLoop(WriteAt(file, Decode(SlotPtr(node, s)), [0]), node, k, PtrOff(s + 1))
  {
    var i := KeyOff(s);
    SlotSlices(node, s, i);
    assert node[i..][..HASH] == SlotKey(node, s) && k[..HASH] == k;
    StrncmpZero(node[i..], k, HASH);
  }

  /** `delete` on a one-leaf tree: a live key's record gets the tombstone,
      anything else leaves the file alone; the tree stays one leaf, and a
      `get` of the key then returns nothing. */
  lemma DeleteThenGet(st: State, n: nat, key: seq<byte>)
    requires OneLeaf(st, n) && NoNul(key)
    ensures DeleteSpec(st, key).Defined?
    ensures var node := RootLeaf(st); var k := IndexKey(key);
      var st' := DeleteSpec(st, key).value;
      && st'.root == st.root
      && st'.file == (if SearchSpec(st, Normalize(key)).value.ret == 0
                      then WriteAt(st.file, Decode(SlotPtr(node, Scan(node, k, 0))), [0]) else st.file)
      && OneLeaf(st', n)
      && var g := GetSpec(st', key); g.Defined? && g.value.value == None
  {
    IndexKeyNoNul(key);
    IndexKeyNormalize(key);
    LeafSearch(st, n, Normalize(key));
    if SearchSpec(st, Normalize(key)).value.ret != 0 {
      DeleteNotLive(st, n, key);
    } else {
      DeleteLive(st, n, key);
    }
  }

  lemma DeleteNotLive(st: State, n: nat, key: seq<byte>)
    requires OneLeaf(st, n) && NoNul(key)
    requires SearchSpec(st, Normalize(key)).Defined? && SearchSpec(st, Normalize(key)).value.ret != 0
    ensures DeleteSpec(st, key).Defined?
    ensures var st' := DeleteSpec(st, key).value;
      && st'.root == st.root && st'.file == st.file && OneLeaf(st', n)
      && var g := GetSpec(st', key); g.Defined? && g.value.value == None
  {
    IndexKeyNoNul(key);
    NotLiveNoop(st, key);
    var st' := DeleteSpec(st, key).value;
    SameFileOneLeaf(st, n, st');
    LeafSearch(st, n, Normalize(key));
    LeafSearch(st', n, Normalize(key));
    NotLiveNoop(st', key);
  }

  lemma DeleteLive(st: State, n: nat, key: seq<byte>)
    requires OneLeaf(st, n) && NoNul(key)
    requires SearchSpec(st, Normalize(key)).Defined? && SearchSpec(st, Normalize(key)).value.ret == 0
    ensures var node := RootLeaf(st); var k := IndexKey(key);
      && Scan(node, k, 0) < n
      && DeleteSpec(st, key).Defined?
      && var st' := DeleteSpec(st, key).value;
      && st'.root == st.root
      && st'.file == WriteAt(st.file, Decode(SlotPtr(node, Scan(node, k, 0))), [0])
      && OneLeaf(st', n)
      && var g := GetSpec(st', key); g.Defined? && g.value.value == None
  {
    var node := RootLeaf(st);
    var k := IndexKey(key);
    var nk := Normalize(key);
    IndexKeyNoNul(key);
    IndexKeyNormalize(key);
    LeafSearch(st, n, nk);
    var s := Scan(node, k, 0);
    var ks := KeysOf(node, n);
    var at := Decode(SlotPtr(node, s));
    forall v | 0 <= v < s
      ensures SlotKey(node, v) != k
    {
      if SlotKey(node, v) == k {
        AscendingDistinct(ks, v, s);
      }
    }
    DelAligned(st.file, node, k, 0, s);
    var file' := WriteAt(st.file, at, [0]);
    var st' := DeleteSpec(st, key).value;
    assert st' == ReadNode(st, 0, st.root).(file := file');
    WriteAtKeeps(st.file, at, [0], st.root, st.root + WIDTH);
    assert RootLeaf(st') == node;
    LeafSearch(st', n, nk);
  }
}
