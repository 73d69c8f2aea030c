/**
  What `get` returns, stated against a reference definition: the value a
  sorted leaf holds for a key (`LeafValue`).  `get` on a one-leaf tree
  returns the root leaf's value.  On the two-level tree a root split leaves
  it returns the value of the leaf the separator chooses.  A `put` that
  splits the root leaf keeps every other key's value and makes the new
  key's value the one put.
 */
module SplitTree {
  import opened Codec
  import opened Keys
  import opened Layout
  import opened Node
  import opened NodeFacts
  import opened SplitFacts
  import opened Engine
  import opened EngineFacts
  import opened Properties

  /** The node stored at address a. */
  function NodeAt(file: seq<byte>, a: nat): (node: seq<byte>)
    requires a + WIDTH <= |file|
    ensures |node| == WIDTH
  {
    file[a..a + WIDTH]
  }

  /** A leaf with n ascending keys whose pointers name bytes of the file. */
  ghost predicate GoodLeaf(file: seq<byte>, node: seq<byte>, n: nat)
  {
    && |node| == WIDTH && IsLeaf(node) && n < ORDER && SortedWith(node, n)
    && forall u :: 0 <= u < n ==> Decode(SlotPtr(node, u)) < |file|
  }

  /** The leaf holds k and the record k's slot points to is not tombstoned. */
  ghost predicate Live(file: seq<byte>, node: seq<byte>, n: nat, k: seq<byte>)
    requires |node| == WIDTH && |k| == HASH && n <= ORDER
  {
    var s := Scan(node, k, 0);
    && k in KeysOf(node, n) && s < n
    && Decode(SlotPtr(node, s)) < |file| && file[Decode(SlotPtr(node, s))] != 0
  }

  /** Reference definition of a leaf's content: the record its slot for k
      points to, or nothing when k is not one of its keys. */
  function LeafValue(file: seq<byte>, node: seq<byte>, n: nat, k: seq<byte>): Outcome<Option<seq<byte>>>
    requires |node| == WIDTH && |k| == HASH && n <= ORDER
  {
    if k in KeysOf(node, n) then ReadRecord(file, Decode(SlotPtr(node, Scan(node, k, 0))))
    else Defined(None)
  }

  // ---------------------------------------------------------------------
  // Leaves

  /** In a sorted node the scan for the key of slot j stops at slot j. */
  lemma ScanAtKey(node: seq<byte>, n: nat, k: seq<byte>, j: nat)
    requires |node| == WIDTH && SortedWith(node, n) && j < n && k == KeysOf(node, n)[j]
    ensures Scan(node, k, 0) == j
  {
    ScanSortedSpec(node, k, n);
    AscendingDistinct(KeysOf(node, n), Scan(node, k, 0), j);
  }

  /** `search` at a leaf on level `index`: 0 exactly when the key is live. */
  lemma LeafDescend(st: State, k: seq<byte>, index: nat, n: nat)
    requires Wf(st) && |k| == HASH && NoNul(k) && index <= DEPTH && GoodLeaf(st.file, st.path[index], n)
    ensures Descend(st, k, index) == Defined(Found(st, if Live(st.file, st.path[index], n, k) then 0 else 1, index))
  {
    var node := st.path[index];
    var s := Scan(node, k, 0);
    LeafScanHit(node, n, k, s);
    if Strncmp(SlotKey(node, s), k, HASH) == 0 {
      DescendLeafHit(st, k, index, s, Decode(SlotPtr(node, s)));
    } else {
      DescendLeafMiss(st, k, index, s);
    }
  }

  /** `get` after a `search` that ended at a good leaf returns the leaf's
      value for the key. */
  lemma GetAtLeaf(st: State, key: seq<byte>, f: Found, n: nat)
    requires Wf(st) && NoNul(key) && SearchSpec(st, Normalize(key)) == Defined(f)
    requires Wf(f.st) && f.index <= DEPTH && GoodLeaf(f.st.file, f.st.path[f.index], n)
    requires f.ret == if Live(f.st.file, f.st.path[f.index], n, IndexKey(key)) then 0 else 1
    ensures var v := LeafValue(f.st.file, f.st.path[f.index], n, IndexKey(key));
      && (GetSpec(st, key).Defined? <==> v.Defined?)
      && (v.Defined? ==> GetSpec(st, key).value == Got(f.st, v.value))
  {
    var k := IndexKey(key);
    var node := f.st.path[f.index];
    var s := Scan(node, k, 0);
    IndexKeyNoNul(key);
    LeafScanHit(node, n, k, s);
    if f.ret == 0 {
      FirstMatchSorted(node, n, k);
    }
  }

  /** `get` on a one-leaf tree returns the root leaf's value for the key. */
  lemma LeafGetValue(st: State, n: nat, key: seq<byte>)
    requires OneLeaf(st, n) && NoNul(key)
    ensures var v := LeafValue(st.file, RootLeaf(st), n, IndexKey(key));
      && (GetSpec(st, key).Defined? <==> v.Defined?)
      && (v.Defined? ==> GetSpec(st, key).value.value == v.value)
  {
    IndexKeyNoNul(key);
    IndexKeyNormalize(key);
    LeafSearch(st, n, Normalize(key));
    var f := SearchSpec(st, Normalize(key)).value;
    assert f.st.path[f.index] == RootLeaf(st) && f.st.file == st.file;
    GetAtLeaf(st, key, f, n);
  }

  /** A record read in f1 reads the same in f2 when f2 extends f1 and keeps
      its bytes from lo on. */
  lemma ReadRecordFrame(f1: seq<byte>, f2: seq<byte>, p: nat, lo: nat)
    requires lo <= p && lo <= |f1| <= |f2| && f2[lo..|f1|] == f1[lo..]
    requires ReadRecord(f1, p).Defined?
    ensures ReadRecord(f2, p) == ReadRecord(f1, p)
  {
    assert forall j :: lo <= j < |f1| ==> f2[j] == f1[j] by {
      forall j | lo <= j < |f1|
        ensures f2[j] == f1[j]
      {
        assert f2[lo..|f1|][j - lo] == f1[lo..][j - lo];
      }
    }
    assert forall a, b :: lo <= a <= b <= |f1| ==> f2[a..b] == f1[a..b] by {
      forall a, b | lo <= a <= b <= |f1|
        ensures f2[a..b] == f1[a..b]
      {
        SliceEq(f2, f1, a, b);
      }
    }
  }

  /** Placing k in a sorted leaf moves every other key together with its
      pointer, so every other key keeps its value. */
  lemma PlaceKeepsValue(file: seq<byte>, node: seq<byte>, n: nat, k: seq<byte>, e: nat, k2: seq<byte>)
    requires |node| == WIDTH && |k| == HASH && NoNul(k) && SortedWith(node, n) && n < ORDER
    requires |k2| == HASH && k2 != k
    ensures var m := if k in KeysOf(node, n) then n else n + 1;
      LeafValue(file, Place(node, k, e, 0, true), m, k2) == LeafValue(file, node, n, k2)
  {
    var r := Place(node, k, e, 0, true);
    var s := Scan(node, k, 0);
    PlaceSorted(node, k, e, 0, true, n);
    PlacePtrs(node, k, e, 0, true, n);
    if k in KeysOf(node, n) {
      ScanSortedSpec(node, k, n);
      RepointKeepsValue(file, node, r, n, s, e, k2);
    } else {
      InsertKeepsValue(file, node, r, n, s, k, e, k2);
    }
  }

  /** A node with the keys of node and only pointer s replaced holds the
      same value for every key but the one at slot s. */
  lemma RepointKeepsValue(file: seq<byte>, node: seq<byte>, r: seq<byte>, n: nat, s: nat, e: nat, k2: seq<byte>)
    requires |node| == WIDTH && |r| == WIDTH && SortedWith(node, n) && s < n && |k2| == HASH
    requires SortedWith(r, n) && KeysOf(r, n) == KeysOf(node, n) && KeysOf(node, n)[s] != k2
    requires PtrsOf(r, n) == PtrsOf(node, n + 1)[..n][s := Encode(e)]
    ensures LeafValue(file, r, n, k2) == LeafValue(file, node, n, k2)
  {
    var ks := KeysOf(node, n);
    if k2 in ks {
      var j :| 0 <= j < n && ks[j] == k2;
      ScanAtKey(node, n, k2, j);
      ScanAtKey(r, n, k2, j);
      assert SlotPtr(r, j) == PtrsOf(r, n)[j] == PtrsOf(node, n + 1)[j];
    }
  }

  /** A node holding the keys of node with k inserted at s, and the
      pointers with e inserted at s, holds the same value for every key
      but k. */
  lemma InsertKeepsValue(file: seq<byte>, node: seq<byte>, r: seq<byte>, n: nat, s: nat, k: seq<byte>,
                         e: nat, k2: seq<byte>)
    requires |node| == WIDTH && |r| == WIDTH && SortedWith(node, n) && s <= n < ORDER
    requires |k2| == HASH && k2 != k
    requires SortedWith(r, n + 1) && KeysOf(r, n + 1) == Inserted(KeysOf(node, n), s, k)
    requires var ps := PtrsOf(node, n + 1); PtrsOf(r, n + 1) == ps[..s] + [Encode(e)] + ps[s..n]
    ensures LeafValue(file, r, n + 1, k2) == LeafValue(file, node, n, k2)
  {
    var ks := KeysOf(node, n);
    if k2 in ks {
      var j :| 0 <= j < n && ks[j] == k2;
      InsertMoves(file, node, r, n, s, k, e, j);
    }
  }

  /** The key of slot j moves to slot j or j + 1 with its pointer. */
  lemma InsertMoves(file: seq<byte>, node: seq<byte>, r: seq<byte>, n: nat, s: nat, k: seq<byte>, e: nat, j: nat)
    requires |node| == WIDTH && |r| == WIDTH && SortedWith(node, n) && s <= n < ORDER && j < n
    requires SortedWith(r, n + 1) && KeysOf(r, n + 1) == Inserted(KeysOf(node, n), s, k)
    requires var ps := PtrsOf(node, n + 1); PtrsOf(r, n + 1) == ps[..s] + [Encode(e)] + ps[s..n]
    ensures var k2 := KeysOf(node, n)[j];
      k2 in KeysOf(r, n + 1) && LeafValue(file, r, n + 1, k2) == LeafValue(file, node, n, k2)
  {
    var j' := if j < s then j else j + 1;
    InsertedKey(node, r, n, s, k, j);
    InsertedAt(PtrsOf(node, n + 1), s, n, Encode(e), j);
    SlotPtrsAt(node, n + 1, j);
    SlotPtrsAt(r, n + 1, j');
  }

  /** After the insertion at s the key of slot j sits, and is found, at slot
      j or j + 1. */
  lemma InsertedKey(node: seq<byte>, r: seq<byte>, n: nat, s: nat, k: seq<byte>, j: nat)
    requires |node| == WIDTH && |r| == WIDTH && SortedWith(node, n) && s <= n < ORDER && j < n
    requires SortedWith(r, n + 1) && KeysOf(r, n + 1) == Inserted(KeysOf(node, n), s, k)
    ensures var k2 := KeysOf(node, n)[j]; var j' := if j < s then j else j + 1;
      && KeysOf(r, n + 1)[j'] == k2 && Scan(node, k2, 0) == j && Scan(r, k2, 0) == j'
  {
    var k2 := KeysOf(node, n)[j];
    InsertedIndex(KeysOf(node, n), s, k, j);
    ScanAtKey(node, n, k2, j);
    ScanAtKey(r, n + 1, k2, if j < s then j else j + 1);
  }

  /** Element j of ks is element j or j + 1 of ks with k inserted at s. */
  lemma InsertedIndex(ks: seq<seq<byte>>, s: nat, k: seq<byte>, j: nat)
    requires s <= |ks| && j < |ks|
    ensures Inserted(ks, s, k)[if j < s then j else j + 1] == ks[j]
  {
  }

  /** Element u of a node's pointer list is slot u's pointer. */
  lemma SlotPtrsAt(node: seq<byte>, m: nat, u: nat)
    requires |node| == WIDTH && u < m <= ORDER + 1
    ensures PtrsOf(node, m)[u] == SlotPtr(node, u)
  {
  }

  /** Element j of ps[..n] sits one place later once x is inserted before it. */
  lemma InsertedAt<T>(ps: seq<T>, s: nat, n: nat, x: T, j: nat)
    requires s <= n <= |ps| && j < n
    ensures (ps[..s] + [x] + ps[s..n])[if j < s then j else j + 1] == ps[j]
  {
    if j >= s {
      assert (ps[..s] + [x] + ps[s..n])[j + 1] == ps[s..n][j - s];
    }
  }

  // ---------------------------------------------------------------------
  // The two-level tree a root split leaves

  /** The address in pointer i of the root node. */
  function Child(st: State, i: nat): nat
    requires st.root + WIDTH <= |st.file| && i <= ORDER
  {
    Decode(SlotPtr(NodeAt(st.file, st.root), i))
  }

  /** The root is an internal node with one separator key and two good
      leaves below it: keys left of the separator are smaller than it,
      keys right of it are not. */
  ghost predicate TwoLevel(st: State, nl: nat, nr: nat)
  {
    && Wf(st) && st.root + WIDTH <= |st.file|
    && var top := NodeAt(st.file, st.root);
    && !IsLeaf(top) && SortedWith(top, 1)
    && Child(st, 0) + WIDTH <= |st.file| && Child(st, 1) + WIDTH <= |st.file|
    && var left := NodeAt(st.file, Child(st, 0));
    && var right := NodeAt(st.file, Child(st, 1));
    && GoodLeaf(st.file, left, nl) && GoodLeaf(st.file, right, nr)
    && (forall u :: 0 <= u < nl ==> Strncmp(SlotKey(left, u), SlotKey(top, 0), HASH) < 0)
    && (forall u :: 0 <= u < nr ==> Strncmp(SlotKey(top, 0), SlotKey(right, u), HASH) <= 0)
  }

  /** Which pointer of the root node the descent for k takes: the left one
      exactly when the separator is greater than k. */
  function Side(st: State, k: seq<byte>): (i: nat)
    requires st.root + WIDTH <= |st.file| && |k| == HASH
    ensures i <= 1
  {
    if Strncmp(SlotKey(NodeAt(st.file, st.root), 0), k, HASH) > 0 then 0 else 1
  }

  /** Reference definition of a two-level tree's content: the value of the
      leaf on k's side of the separator. */
  ghost function TwoLevelValue(st: State, nl: nat, nr: nat, k: seq<byte>): Outcome<Option<seq<byte>>>
    requires TwoLevel(st, nl, nr) && |k| == HASH
  {
    if Side(st, k) == 0 then LeafValue(st.file, NodeAt(st.file, Child(st, 0)), nl, k)
    else LeafValue(st.file, NodeAt(st.file, Child(st, 1)), nr, k)
  }

  /** In an internal node with one key, the child `search` descends to is
      pointer 0 exactly when the key is greater than k. */
  lemma TopChild(top: seq<byte>, k: seq<byte>)
    requires |top| == WIDTH && SortedWith(top, 1) && |k| == HASH && NoNul(k)
    ensures Scan(top, k, 0) < ORDER
    ensures ChildAddr(top, k, Scan(top, k, 0)) ==
      Decode(SlotPtr(top, if Strncmp(SlotKey(top, 0), k, HASH) > 0 then 0 else 1))
  {
    var s := Scan(top, k, 0);
    ScanSortedBounds(top, k, 1);
    StrncmpAntisym(SlotKey(top, 0), k, HASH);
    if s == 1 {
      assert !Filled(top, 1);
      assert SlotKey(top, 1)[0] == 0 && k[0] != 0;
    }
  }

  /** The descent from an internal node on a level below `_DEPTH` reads the
      child the node leads to and goes on there. */
  lemma DescendInto(st: State, k: seq<byte>, index: nat, s: nat, addr: nat)
    requires Wf(st) && |k| == HASH && index < DEPTH && s == Scan(st.path[index], k, 0) < ORDER
    requires !IsLeaf(st.path[index]) && addr == ChildAddr(st.path[index], k, s) && addr + WIDTH <= |st.file|
    ensures Descend(st, k, index) == Descend(ReadNode(st, index + 1, addr), k, index + 1)
  {
  }

  /** The descent from an internal root node with one key to the good leaf
      at address a on k's side of it. */
  lemma DescendTwo(st: State, top: seq<byte>, k: seq<byte>, a: nat, leaf: seq<byte>, n: nat)
    requires Wf(st) && st.root + WIDTH <= |st.file| && top == NodeAt(st.file, st.root)
    requires !IsLeaf(top) && SortedWith(top, 1) && |k| == HASH && NoNul(k)
    requires a == Decode(SlotPtr(top, if Strncmp(SlotKey(top, 0), k, HASH) > 0 then 0 else 1))
    requires a + WIDTH <= |st.file| && leaf == NodeAt(st.file, a) && GoodLeaf(st.file, leaf, n)
    ensures var st0 := ReadNode(st, 0, st.root);
      Descend(st0, k, 0) == Defined(Found(ReadNode(st0, 1, a), if Live(st.file, leaf, n, k) then 0 else 1, 1))
  {
    var st0 := ReadNode(st, 0, st.root);
    assert st0.path[0] == top;
    TopChild(top, k);
    DescendInto(st0, k, 0, Scan(top, k, 0), a);
    var st1 := ReadNode(st0, 1, a);
    assert st1.path[1] == leaf && st1.file == st.file;
    LeafDescend(st1, k, 1, n);
  }

  /** `search` on a two-level tree reads the root, then the leaf on k's side,
      and reports the key live exactly when that leaf holds it live. */
  lemma TwoLevelSearch(st: State, nl: nat, nr: nat, key: seq<byte>)
    requires TwoLevel(st, nl, nr) && NoNul(key)
    ensures var k := IndexKey(key); var i := Side(st, k);
      var leaf := NodeAt(st.file, Child(st, i)); var n := if i == 0 then nl else nr;
      SearchSpec(st, key) ==
        Defined(Found(ReadNode(ReadNode(st, 0, st.root), 1, Child(st, i)), if Live(st.file, leaf, n, k) then 0 else 1, 1))
  {
    var k := IndexKey(key);
    var top := NodeAt(st.file, st.root);
    IndexKeyNoNul(key);
    if Side(st, k) == 0 {
      DescendTwo(st, top, k, Child(st, 0), NodeAt(st.file, Child(st, 0)), nl);
    } else {
      DescendTwo(st, top, k, Child(st, 1), NodeAt(st.file, Child(st, 1)), nr);
    }
  }

  /** `get` on a two-level tree returns the value the tree holds for the key. */
  lemma TwoLevelGet(st: State, nl: nat, nr: nat, key: seq<byte>)
    requires TwoLevel(st, nl, nr) && NoNul(key)
    ensures var v := TwoLevelValue(st, nl, nr, IndexKey(key));
      && (GetSpec(st, key).Defined? <==> v.Defined?)
      && (v.Defined? ==> GetSpec(st, key).value.value == v.value)
  {
    IndexKeyNoNul(key);
    IndexKeyNormalize(key);
    TwoLevelSearch(st, nl, nr, Normalize(key));
    var f := SearchSpec(st, Normalize(key)).value;
    GetAtLeaf(st, key, f, if Side(st, IndexKey(key)) == 0 then nl else nr);
  }

  // ---------------------------------------------------------------------
  // A root split

  /** `_insert` at the root level on a leaf that fills up: `node_split`
      appends the right half and a new root, the left half is written back
      over the old root, and the new root's address becomes the root. */
  lemma InsertRootSplit(st: State, key: seq<byte>, addr: nat)
    requires Wf(st) && NoNul(key)
    requires NeedsSplit(Place(st.path[0], IndexKey(key), addr, 0, true))
    ensures var p := Place(st.path[0], IndexKey(key), addr, 0, true); var raddr := |st.file|;
      var r := InsertSpec(st, key, 0, addr, 0, true);
      && r.root == raddr + WIDTH
      && r.file == WriteAt(st.file + SplitRight(p, true) + NewRoot(st.addrs[0], Separator(p), raddr),
                           st.addrs[0], SplitLeft(p, raddr))
  {
    var p := Place(st.path[0], IndexKey(key), addr, 0, true);
    var st1 := st.(path := st.path[0 := p]);
    var raddr := |st.file|;
    SplitSteps(st1, 0, true, p, raddr, st1.(file := st1.file + SplitRight(p, true), path := st1.path[0 := SplitLeft(p, raddr)]));
  }

  /** Where the three nodes of a root split sit in the file it leaves. */
  lemma SplitNodes(g: seq<byte>, root: nat, p: seq<byte>, raddr: nat, file: seq<byte>)
    requires |p| == WIDTH && root + WIDTH <= |g| && raddr == |g|
    requires file == WriteAt(g + SplitRight(p, true) + NewRoot(root, Separator(p), raddr), root, SplitLeft(p, raddr))
    ensures |file| == raddr + 2 * WIDTH
    ensures NodeAt(file, root) == SplitLeft(p, raddr)
    ensures NodeAt(file, raddr) == SplitRight(p, true)
    ensures NodeAt(file, raddr + WIDTH) == NewRoot(root, Separator(p), raddr)
    ensures file[root + WIDTH..raddr] == g[root + WIDTH..]
  {
    var sr := SplitRight(p, true);
    var nr := NewRoot(root, Separator(p), raddr);
    var h := g + sr + nr;
    WriteAtKeeps(h, root, SplitLeft(p, raddr), raddr, raddr + WIDTH);
    WriteAtKeeps(h, root, SplitLeft(p, raddr), raddr + WIDTH, raddr + 2 * WIDTH);
    WriteAtKeeps(h, root, SplitLeft(p, raddr), root + WIDTH, raddr);
    SliceLeft(g + sr, nr, raddr, raddr + WIDTH);
    SliceRight(g, sr, raddr, raddr + WIDTH);
    SliceRight(g + sr, nr, raddr + WIDTH, raddr + 2 * WIDTH);
    SliceLeft(g + sr, nr, root + WIDTH, raddr);
    SliceLeft(g, sr, root + WIDTH, raddr);
  }

  /** The left half of a full sorted leaf is a good leaf whose keys are
      below the separator. */
  lemma SplitLeftGood(file: seq<byte>, p: seq<byte>, raddr: nat)
    requires |p| == WIDTH && IsLeaf(p) && SortedWith(p, ORDER)
    requires forall u :: 0 <= u < ORDER ==> Decode(SlotPtr(p, u)) < |file|
    ensures var l := SplitLeft(p, raddr);
      && GoodLeaf(file, l, HALF)
      && forall u :: 0 <= u < HALF ==> Strncmp(SlotKey(l, u), Separator(p), HASH) < 0
  {
    var l := SplitLeft(p, raddr);
    SplitLeftSorted(p, raddr);
    SeparatorBetween(p);
    forall u | 0 <= u < HALF
      ensures SlotPtr(l, u) == SlotPtr(p, u) && SlotKey(l, u) == KeysOf(p, ORDER)[u]
    {
      assert SlotPtr(l, u) == PtrsOf(l, HALF + 1)[u];
      assert SlotKey(l, u) == KeysOf(l, HALF)[u];
    }
  }

  /** The right half of a full sorted leaf is a good leaf whose keys are
      not below the separator. */
  lemma SplitRightGood(file: seq<byte>, p: seq<byte>)
    requires |p| == WIDTH && IsLeaf(p) && SortedWith(p, ORDER)
    requires forall u :: 0 <= u < ORDER ==> Decode(SlotPtr(p, u)) < |file|
    ensures var r := SplitRight(p, true);
      && GoodLeaf(file, r, ORDER - HALF)
      && forall u :: 0 <= u < ORDER - HALF ==> Strncmp(Separator(p), SlotKey(r, u), HASH) <= 0
  {
    var r := SplitRight(p, true);
    var ks := KeysOf(p, ORDER);
    SplitRightLeafSorted(p);
    SplitRightLeafSlots(p);
    SeparatorBetween(p);
    forall u | 0 <= u < ORDER - HALF
      ensures SlotPtr(r, u) == SlotPtr(p, u + HALF) && SlotKey(r, u) == ks[u + HALF]
    {
      assert SlotPtr(r, u) == PtrsOf(r, ORDER - HALF + 1)[u];
      assert SlotKey(r, u) == KeysOf(r, ORDER - HALF)[u];
    }
    assert ks[HALF][..HASH] == ks[HALF];
    StrncmpZero(ks[HALF], ks[HALF], HASH);
  }

  /** The state a root split leaves is a two-level tree: the new root holds
      the separator, the left half at the old root's address, the right
      half at the first appended address. */
  lemma SplitTwoLevel(st: State, g: seq<byte>, root: nat, p: seq<byte>)
    requires Wf(st) && |p| == WIDTH && IsLeaf(p) && SortedWith(p, ORDER)
    requires root + WIDTH <= |g| < TWO_64
    requires forall u :: 0 <= u < ORDER ==> Decode(SlotPtr(p, u)) < |g|
    requires st.file == WriteAt(g + SplitRight(p, true) + NewRoot(root, Separator(p), |g|), root, SplitLeft(p, |g|))
    requires st.root == |g| + WIDTH
    ensures TwoLevel(st, HALF, ORDER - HALF)
    ensures Child(st, 0) == root && Child(st, 1) == |g|
    ensures SlotKey(NodeAt(st.file, st.root), 0) == Separator(p)
  {
    var raddr := |g|;
    var sep := Separator(p);
    var top := NodeAt(st.file, st.root);
    SplitNodes(g, root, p, raddr, st.file);
    SeparatorBetween(p);
    NewRootShape(root, sep, raddr);
    assert SlotPtr(top, 0) == PtrsOf(top, 2)[0] && SlotPtr(top, 1) == PtrsOf(top, 2)[1];
    assert SlotKey(top, 0) == KeysOf(top, 1)[0];
    DecodeEncode(root);
    DecodeEncode(raddr);
    SplitLeftGood(st.file, p, raddr);
    SplitRightGood(st.file, p);
  }

  /** A key below the separator has in the left half the value it has in
      the full leaf. */
  lemma LeftHalfValue(file: seq<byte>, p: seq<byte>, raddr: nat, k: seq<byte>)
    requires |p| == WIDTH && SortedWith(p, ORDER) && |k| == HASH
    requires Strncmp(Separator(p), k, HASH) > 0
    ensures LeafValue(file, SplitLeft(p, raddr), HALF, k) == LeafValue(file, p, ORDER, k)
  {
    var ks := KeysOf(p, ORDER);
    SplitLeftSorted(p, raddr);
    if k in ks {
      var j :| 0 <= j < ORDER && ks[j] == k;
      BelowSeparator(p, k, j);
      LeftHalfAt(file, p, raddr, j);
    } else {
      assert KeysOf(SplitLeft(p, raddr), HALF) == ks[..HALF];
    }
  }

  /** A key of the full leaf below the separator sits in slot j < `_HALF`. */
  lemma BelowSeparator(p: seq<byte>, k: seq<byte>, j: nat)
    requires |p| == WIDTH && SortedWith(p, ORDER) && j < ORDER && KeysOf(p, ORDER)[j] == k
    requires Strncmp(Separator(p), k, HASH) > 0
    ensures j < HALF
  {
    var ks := KeysOf(p, ORDER);
    SeparatorBetween(p);
    if j == HALF {
      assert ks[HALF][..HASH] == ks[HALF];
      StrncmpZero(ks[HALF], ks[HALF], HASH);
    }
  }

  /** Slot j < `_HALF` of the full leaf keeps its key and pointer in the left
      half. */
  lemma LeftHalfAt(file: seq<byte>, p: seq<byte>, raddr: nat, j: nat)
    requires |p| == WIDTH && SortedWith(p, ORDER) && j < HALF
    ensures var k := KeysOf(p, ORDER)[j]; var l := SplitLeft(p, raddr);
      && k in KeysOf(l, HALF) && LeafValue(file, l, HALF, k) == LeafValue(file, p, ORDER, k)
  {
    var l := SplitLeft(p, raddr);
    var k := KeysOf(p, ORDER)[j];
    SplitLeftSorted(p, raddr);
    assert KeysOf(l, HALF)[j] == k;
    ScanAtKey(p, ORDER, k, j);
    ScanAtKey(l, HALF, k, j);
    SlotPtrsAt(l, HALF + 1, j);
    SlotPtrsAt(p, HALF, j);
  }

  /** A key not below the separator has in the right half the value it has
      in the full leaf. */
  lemma RightHalfValue(file: seq<byte>, p: seq<byte>, k: seq<byte>)
    requires |p| == WIDTH && SortedWith(p, ORDER) && |k| == HASH
    requires Strncmp(Separator(p), k, HASH) <= 0
    ensures LeafValue(file, SplitRight(p, true), ORDER - HALF, k) == LeafValue(file, p, ORDER, k)
  {
    var ks := KeysOf(p, ORDER);
    SplitRightLeafSorted(p);
    if k in ks {
      var j :| 0 <= j < ORDER && ks[j] == k;
      if j < HALF {
        SeparatorBetween(p);
        StrncmpAntisym(k, Separator(p), HASH);
        assert false;
      }
      RightHalfAt(file, p, j);
    } else {
      assert KeysOf(SplitRight(p, true), ORDER - HALF) == ks[HALF..];
    }
  }

  /** Slot j >= `_HALF` of the full leaf moves with its pointer to slot
      j - `_HALF` of the right half. */
  lemma RightHalfAt(file: seq<byte>, p: seq<byte>, j: nat)
    requires |p| == WIDTH && SortedWith(p, ORDER) && HALF <= j < ORDER
    ensures var k := KeysOf(p, ORDER)[j]; var r := SplitRight(p, true);
      && k in KeysOf(r, ORDER - HALF) && LeafValue(file, r, ORDER - HALF, k) == LeafValue(file, p, ORDER, k)
  {
    var r := SplitRight(p, true);
    var k := KeysOf(p, ORDER)[j];
    SplitRightLeafSorted(p);
    assert KeysOf(r, ORDER - HALF)[j - HALF] == k;
    ScanAtKey(p, ORDER, k, j);
    ScanAtKey(r, ORDER - HALF, k, j - HALF);
    SlotPtrsAt(r, ORDER - HALF + 1, j - HALF);
    SlotPtrsAt(p, ORDER + 1, j);
  }

  /** The two-level tree a root split leaves holds, for every key, the value
      of the full leaf it split. */
  lemma SplitValue(st: State, g: seq<byte>, root: nat, p: seq<byte>, k: seq<byte>)
    requires Wf(st) && |p| == WIDTH && IsLeaf(p) && SortedWith(p, ORDER) && |k| == HASH
    requires root + WIDTH <= |g| < TWO_64
    requires forall u :: 0 <= u < ORDER ==> Decode(SlotPtr(p, u)) < |g|
    requires st.file == WriteAt(g + SplitRight(p, true) + NewRoot(root, Separator(p), |g|), root, SplitLeft(p, |g|))
    requires st.root == |g| + WIDTH
    ensures TwoLevel(st, HALF, ORDER - HALF)
    ensures TwoLevelValue(st, HALF, ORDER - HALF, k) == LeafValue(st.file, p, ORDER, k)
  {
    SplitTwoLevel(st, g, root, p);
    SplitNodes(g, root, p, |g|, st.file);
    if Side(st, k) == 0 {
      LeftHalfValue(st.file, p, |g|, k);
    } else {
      RightHalfValue(st.file, p, k);
    }
  }

  // ---------------------------------------------------------------------
  // put on a full leaf

  /** `put` of a new key into a one-leaf tree whose leaf holds `_ORDER` - 1
      keys: the record is appended, the leaf with the key placed splits,
      and the new root is appended after the right half. */
  lemma RootSplitPut(st: State, key: seq<byte>, value: seq<byte>)
    requires OneLeaf(st, ORDER - 1) && NoNul(key) && NoNul(value) && |key| + |value| <= MAX
    requires IndexKey(key) !in KeysOf(RootLeaf(st), ORDER - 1)
    ensures SearchSpec(st, key).Defined? && SearchSpec(st, key).value.ret == 1
    ensures PutSpec(st, key, value).Defined?
    ensures var p := Place(RootLeaf(st), IndexKey(key), |st.file|, 0, true);
      var g := st.file + Record(key, value); var st' := PutSpec(st, key, value).value;
      && st'.root == |g| + WIDTH
      && st'.file == WriteAt(g + SplitRight(p, true) + NewRoot(st.root, Separator(p), |g|), st.root, SplitLeft(p, |g|))
  {
    var node := RootLeaf(st);
    var k := IndexKey(key);
    var e := |st.file|;
    IndexKeyNoNul(key);
    LeafSearch(st, ORDER - 1, key);
    var f := SearchSpec(st, key).value;
    PutActs(st, key, value);
    var st1 := f.st.(file := f.st.file + Record(key, value));
    assert st1.path[0] == node && st1.addrs[0] == st.root;
    var p := Place(node, k, e, 0, true);
    PlaceSorted(node, k, e, 0, true, ORDER - 1);
    assert Filled(p, ORDER - 1);
    NeedsSplitIsLastSlot(p);
    InsertRootSplit(st1, key, e);
  }

  /** The leaf a splitting `put` builds before the cut: sorted and full, its
      pointers inside the file with the record appended. */
  lemma SplitPlaced(st: State, key: seq<byte>, value: seq<byte>)
    requires OneLeaf(st, ORDER - 1) && NoNul(key) && |key| + |value| <= MAX
    requires IndexKey(key) !in KeysOf(RootLeaf(st), ORDER - 1)
    ensures var p := Place(RootLeaf(st), IndexKey(key), |st.file|, 0, true);
      var g := st.file + Record(key, value);
      && IsLeaf(p) && SortedWith(p, ORDER) && st.root + WIDTH <= |g| < TWO_64
      && forall u :: 0 <= u < ORDER ==> Decode(SlotPtr(p, u)) < |g|
  {
    var node := RootLeaf(st);
    var k := IndexKey(key);
    var e := |st.file|;
    var g := st.file + Record(key, value);
    var p := Place(node, k, e, 0, true);
    IndexKeyNoNul(key);
    PlaceSorted(node, k, e, 0, true, ORDER - 1);
    Pow2Mono(56, 64);
    Pow2_64();
    SlotsInRange(node, ORDER - 1, 0, |g|);
    PlacePtrBounds(node, k, e, ORDER - 1, 0, |g|);
    SlotsInRange(p, ORDER, 0, |g|);
  }

  /** After a splitting `put` the tree has two levels and holds the value
      put under the new key. */
  lemma SplitPutValue(st: State, key: seq<byte>, value: seq<byte>)
    requires OneLeaf(st, ORDER - 1) && NoNul(key) && NoNul(value) && |key| + |value| <= MAX
    requires IndexKey(key) !in KeysOf(RootLeaf(st), ORDER - 1)
    ensures PutSpec(st, key, value).Defined?
    ensures var st' := PutSpec(st, key, value).value;
      && TwoLevel(st', HALF, ORDER - HALF)
      && TwoLevelValue(st', HALF, ORDER - HALF, IndexKey(key)) == Defined(Some(value))
  {
    var node := RootLeaf(st);
    var k := IndexKey(key);
    var e := |st.file|;
    var rec := Record(key, value);
    var g := st.file + rec;
    var p := Place(node, k, e, 0, true);
    IndexKeyNoNul(key);
    RootSplitPut(st, key, value);
    SplitPlaced(st, key, value);
    var st' := PutSpec(st, key, value).value;
    SplitValue(st', g, st.root, p, k);
    PlaceFinds(node, k, e, 0, true, ORDER - 1);
    assert k in KeysOf(p, ORDER);
    PlaceLeafPtr(node, k, e, ORDER - 1);
    DecodeEncode(e);
    PutAppendsRecord(st, key, value, rec, e, e + |rec|, st');
  }

  /** The bytes from lo to the end of f0 survive in file when they survive
      in it up to the end of the longer g that starts with f0. */
  lemma FrameShorter(file: seq<byte>, g: seq<byte>, f0: seq<byte>, lo: nat)
    requires lo <= |f0| <= |g| <= |file| && g[..|f0|] == f0 && file[lo..|g|] == g[lo..]
    ensures file[lo..|f0|] == f0[lo..]
  {
    forall j | lo <= j < |f0|
      ensures file[j] == f0[j]
    {
      assert file[lo..|g|][j - lo] == g[lo..][j - lo];
      assert g[..|f0|][j] == g[j];
    }
  }

  /** After a splitting `put` every other key whose value could be read
      before keeps it. */
  lemma SplitPutOthers(st: State, key: seq<byte>, value: seq<byte>, k2: seq<byte>)
    requires OneLeaf(st, ORDER - 1) && NoNul(key) && NoNul(value) && |key| + |value| <= MAX
    requires IndexKey(key) !in KeysOf(RootLeaf(st), ORDER - 1)
    requires |k2| == HASH && k2 != IndexKey(key) && LeafValue(st.file, RootLeaf(st), ORDER - 1, k2).Defined?
    ensures PutSpec(st, key, value).Defined?
    ensures var st' := PutSpec(st, key, value).value;
      && TwoLevel(st', HALF, ORDER - HALF)
      && TwoLevelValue(st', HALF, ORDER - HALF, k2) == LeafValue(st.file, RootLeaf(st), ORDER - 1, k2)
  {
    var node := RootLeaf(st);
    var k := IndexKey(key);
    var e := |st.file|;
    var g := st.file + Record(key, value);
    var p := Place(node, k, e, 0, true);
    var lo := st.root + WIDTH;
    IndexKeyNoNul(key);
    RootSplitPut(st, key, value);
    SplitPlaced(st, key, value);
    var st' := PutSpec(st, key, value).value;
    SplitValue(st', g, st.root, p, k2);
    SplitNodes(g, st.root, p, |g|, st'.file);
    assert g[..|st.file|] == st.file;
    FrameShorter(st'.file, g, st.file, lo);
    RewrittenValue(st.file, st'.file, st.root, node, ORDER - 1, k, e, k2);
  }

  // ---------------------------------------------------------------------
  // get after put

  /** `get` after a `put` that splits the root returns the value put. */
  lemma SplitPutThenGet(st: State, key: seq<byte>, value: seq<byte>)
    requires OneLeaf(st, ORDER - 1) && NoNul(key) && NoNul(value) && |key| + |value| <= MAX
    requires IndexKey(key) !in KeysOf(RootLeaf(st), ORDER - 1)
    ensures PutSpec(st, key, value).Defined?
    ensures var g := GetSpec(PutSpec(st, key, value).value, key);
      g.Defined? && g.value.value == Some(value)
  {
    SplitPutValue(st, key, value);
    TwoLevelGet(PutSpec(st, key, value).value, HALF, ORDER - HALF, key);
  }

  /** `get` of any other key after a `put` that splits the root returns what
      it returned before, whenever it returned something. */
  lemma SplitPutKeeps(st: State, key: seq<byte>, value: seq<byte>, key2: seq<byte>)
    requires OneLeaf(st, ORDER - 1) && NoNul(key) && NoNul(value) && |key| + |value| <= MAX
    requires IndexKey(key) !in KeysOf(RootLeaf(st), ORDER - 1)
    requires NoNul(key2) && IndexKey(key2) != IndexKey(key) && GetSpec(st, key2).Defined?
    ensures PutSpec(st, key, value).Defined?
    ensures var g := GetSpec(PutSpec(st, key, value).value, key2);
      g.Defined? && g.value.value == GetSpec(st, key2).value.value
  {
    LeafGetValue(st, ORDER - 1, key2);
    SplitPutOthers(st, key, value, IndexKey(key2));
    TwoLevelGet(PutSpec(st, key, value).value, HALF, ORDER - HALF, key2);
  }

  /** A leaf rewritten with k placed, in a file that keeps the bytes after
      the leaf, holds for every other key the value it held before, when
      that value could be read. */
  lemma RewrittenValue(f0: seq<byte>, file: seq<byte>, root: nat, node: seq<byte>, n: nat,
                       k: seq<byte>, e: nat, k2: seq<byte>)
    requires |node| == WIDTH && SortedWith(node, n) && n < ORDER && |k| == HASH && NoNul(k)
    requires |k2| == HASH && k2 != k && LeafValue(f0, node, n, k2).Defined?
    requires root + WIDTH <= |f0| <= |file| && file[root + WIDTH..|f0|] == f0[root + WIDTH..]
    requires forall u :: 0 <= u < n ==> root + WIDTH <= Decode(SlotPtr(node, u))
    ensures var m := if k in KeysOf(node, n) then n else n + 1;
      LeafValue(file, Place(node, k, e, 0, true), m, k2) == LeafValue(f0, node, n, k2)
  {
    FramedValue(f0, file, node, n, k2, root + WIDTH);
    PlaceKeepsValue(file, node, n, k, e, k2);
  }

  /** Writing a node back at root after appending to f0 keeps the bytes of
      f0 after the node. */
  lemma RewriteFrame(f0: seq<byte>, g: seq<byte>, root: nat, x: seq<byte>, file: seq<byte>)
    requires root + |x| <= |f0| <= |g| && g[..|f0|] == f0 && file == WriteAt(g, root, x)
    ensures |f0| <= |file| && file[root + |x|..|f0|] == f0[root + |x|..]
  {
    WriteAtKeeps(g, root, x, root + |x|, |g|);
    FrameShorter(file, g, f0, root + |x|);
  }

  /** A leaf whose pointers all lie at lo or later has the same value for k
      in a file that keeps the bytes from lo on and extends them, when the
      value could be read before. */
  lemma FramedValue(f0: seq<byte>, file: seq<byte>, node: seq<byte>, n: nat, k: seq<byte>, lo: nat)
    requires |node| == WIDTH && SortedWith(node, n) && n < ORDER && |k| == HASH
    requires LeafValue(f0, node, n, k).Defined?
    requires lo <= |f0| <= |file| && file[lo..|f0|] == f0[lo..]
    requires forall u :: 0 <= u < n ==> lo <= Decode(SlotPtr(node, u))
    ensures LeafValue(file, node, n, k) == LeafValue(f0, node, n, k)
  {
    if k in KeysOf(node, n) {
      ScanSortedSpec(node, k, n);
      ReadRecordFrame(f0, file, Decode(SlotPtr(node, Scan(node, k, 0))), lo);
    }
  }

  /** `get` of any other key after a `put` into a one-leaf tree that does not
      split returns what it returned before, whenever it returned something. */
  lemma PutKeepsOthers(st: State, n: nat, key: seq<byte>, value: seq<byte>, key2: seq<byte>)
    requires OneLeaf(st, n) && NoNul(key) && NoNul(value) && n < ORDER - 1
    requires |st.file| + |Record(key, value)| < Pow2(56)
    requires NoNul(key2) && IndexKey(key2) != IndexKey(key) && GetSpec(st, key2).Defined?
    ensures PutSpec(st, key, value).Defined?
    ensures var g := GetSpec(PutSpec(st, key, value).value, key2);
      g.Defined? && g.value.value == GetSpec(st, key2).value.value
  {
    var node := RootLeaf(st);
    var k := IndexKey(key);
    PutKeepsOneLeaf(st, n, key, value);
    var st' := PutSpec(st, key, value).value;
    LeafGetValue(st, n, key2);
    if SearchSpec(st, key).value.ret != 0 && |key| + |value| <= MAX {
      var e := |st.file|;
      var g := st.file + Record(key, value);
      var m := if k in KeysOf(node, n) then n else n + 1;
      var r := Place(node, k, e, 0, true);
      LeafPut(st, n, key, value);
      assert OneLeaf(st', m) && RootLeaf(st') == r;
      IndexKeyNoNul(key);
      LeafGetValue(st', m, key2);
      assert g[..|st.file|] == st.file;
      RewriteFrame(st.file, g, st.root, r, st'.file);
      RewrittenValue(st.file, st'.file, st.root, node, n, k, e, IndexKey(key2));
    } else {
      PutNoop(st, key, value);
      LeafGetValue(st', n, key2);
    }
  }
}
