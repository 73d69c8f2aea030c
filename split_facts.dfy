/**
  What the cut of `node_split` (tree.c:103-121, 126-131) does to a full node
  with ascending keys: the left half keeps slots 0..48 and points on to the
  new right node, the right half takes the remaining slots, and the
  separator lies between the two halves.
 */
module SplitFacts {
  import opened Codec
  import opened Keys
  import opened Layout
  import opened Node

  /** Bytes 1..e of r are the bytes of node d slots further on. */
  lemma SlotsMoved(r: seq<byte>, node: seq<byte>, d: nat, nk: nat, np: nat)
    requires |r| == WIDTH && |node| == WIDTH && nk + d <= ORDER && np + d <= ORDER
    requires forall j :: 1 <= j < PtrOff(np) + LONG ==> r[j] == node[j + SLOT * d]
    requires PtrOff(nk) <= PtrOff(np) + LONG
    ensures forall u :: 0 <= u < nk ==>
      SlotKey(r, u) == SlotKey(node, u + d) && (Filled(r, u) <==> Filled(node, u + d))
    ensures forall u :: 0 <= u <= np ==> SlotPtr(r, u) == SlotPtr(node, u + d)
  {
    forall u | 0 <= u < nk
      ensures SlotKey(r, u) == SlotKey(node, u + d) && (Filled(r, u) <==> Filled(node, u + d))
    {
      SliceShift(r, node, SLOT * d, KeyOff(u), KeyOff(u) + 33);
    }
    forall u | 0 <= u <= np
      ensures SlotPtr(r, u) == SlotPtr(node, u + d)
    {
      SliceShift(r, node, SLOT * d, PtrOff(u), PtrOff(u) + 8);
    }
  }

  /** A node whose bytes from m on are zero has no used slot there. */
  lemma UnusedFrom(r: seq<byte>, m: nat)
    requires |r| == WIDTH && m <= WIDTH
    requires forall j :: m <= j < WIDTH ==> r[j] == 0
    ensures forall u :: 0 <= u < ORDER && m <= KeyOff(u) ==> !Filled(r, u)
  {
  }

  // ---------------------------------------------------------------------
  // lnode

  /** The left half keeps slots 0..48, has the right half's address as the
      pointer of slot 49 and no key from slot 49 on. */
  lemma SplitLeftSlots(node: seq<byte>, raddr: nat)
    requires |node| == WIDTH
    ensures var l := SplitLeft(node, raddr);
      && (IsLeaf(l) <==> IsLeaf(node))
      && (forall u :: 0 <= u < HALF ==> SlotKey(l, u) == SlotKey(node, u) && (Filled(l, u) <==> Filled(node, u)))
      && (forall u :: 0 <= u < HALF ==> SlotPtr(l, u) == SlotPtr(node, u))
      && SlotPtr(l, HALF) == Encode(raddr)
      && (forall u :: HALF <= u < ORDER ==> !Filled(l, u))
  {
    var l := SplitLeft(node, raddr);
    assert l[..SPLIT] == node[..SPLIT];
    SamePrefix(l, node, SPLIT);
    assert SlotPtr(l, HALF) == l[SPLIT..SPLIT + LONG];
    UnusedFrom(l, SPLIT + LONG);
  }

  /** Splitting a full sorted node: the left half holds its first 49 keys in
      order, with their pointers followed by the right half's address. */
  lemma SplitLeftSorted(node: seq<byte>, raddr: nat)
    requires |node| == WIDTH && SortedWith(node, ORDER)
    ensures var l := SplitLeft(node, raddr);
      && (IsLeaf(l) <==> IsLeaf(node))
      && SortedWith(l, HALF) && KeysOf(l, HALF) == KeysOf(node, ORDER)[..HALF]
      && PtrsOf(l, HALF + 1) == PtrsOf(node, HALF) + [Encode(raddr)]
  {
    var l := SplitLeft(node, raddr);
    var ks := KeysOf(node, ORDER);
    SplitLeftSlots(node, raddr);
    AscendingSlice(ks, 0, HALF);
    SortedFromKeys(l, HALF, ks[..HALF]);
  }

  // ---------------------------------------------------------------------
  // rnode

  /** A leaf's right half starts with node slot 49: slot u is node slot
      u + 49 for the 50 keys and 51 pointers that fit, and nothing follows. */
  lemma SplitRightLeafSlots(node: seq<byte>)
    requires |node| == WIDTH
    ensures var r := SplitRight(node, true);
      && IsLeaf(r)
      && (forall u :: 0 <= u < ORDER - HALF ==>
            SlotKey(r, u) == SlotKey(node, u + HALF) && (Filled(r, u) <==> Filled(node, u + HALF)))
      && (forall u :: 0 <= u <= ORDER - HALF ==> SlotPtr(r, u) == SlotPtr(node, u + HALF))
      && (forall u :: ORDER - HALF <= u < ORDER ==> !Filled(r, u))
  {
    var r := SplitRight(node, true);
    var rest := node[SPLIT..];
    forall j | 1 <= j < WIDTH - SPLIT + 1
      ensures r[j] == node[j + SLOT * HALF]
    {
      assert r[j] == rest[j - 1];
    }
    SlotsMoved(r, node, HALF, ORDER - HALF, ORDER - HALF);
    UnusedFrom(r, WIDTH - SPLIT + 1);
  }

  /** An internal node's right half starts with node slot 50's pointer: the
      key of slot 49 goes up only, and slot u is node slot u + 50. */
  lemma SplitRightInnerSlots(node: seq<byte>)
    requires |node| == WIDTH
    ensures var r := SplitRight(node, false);
      && !IsLeaf(r)
      && (forall u :: 0 <= u < ORDER - HALF - 1 ==>
            SlotKey(r, u) == SlotKey(node, u + HALF + 1) && (Filled(r, u) <==> Filled(node, u + HALF + 1)))
      && (forall u :: 0 <= u <= ORDER - HALF - 1 ==> SlotPtr(r, u) == SlotPtr(node, u + HALF + 1))
      && (forall u :: ORDER - HALF - 1 <= u < ORDER ==> !Filled(r, u))
  {
    var r := SplitRight(node, false);
    var rest := node[SPLIT + SLOT..];
    forall j | 1 <= j < WIDTH - SPLIT - SLOT + 1
      ensures r[j] == node[j + SLOT * (HALF + 1)]
    {
      assert r[j] == rest[j - 1];
    }
    SlotsMoved(r, node, HALF + 1, ORDER - HALF - 1, ORDER - HALF - 1);
    UnusedFrom(r, WIDTH - SPLIT - SLOT + 1);
  }

  /** A full sorted leaf's right half holds its last 50 keys in order with
      their pointers and the trailing pointer. */
  lemma SplitRightLeafSorted(node: seq<byte>)
    requires |node| == WIDTH && SortedWith(node, ORDER)
    ensures var r := SplitRight(node, true);
      && SortedWith(r, ORDER - HALF) && KeysOf(r, ORDER - HALF) == KeysOf(node, ORDER)[HALF..]
      && PtrsOf(r, ORDER - HALF + 1) == PtrsOf(node, ORDER + 1)[HALF..]
  {
    var r := SplitRight(node, true);
    var ks := KeysOf(node, ORDER);
    SplitRightLeafSlots(node);
    AscendingSlice(ks, HALF, ORDER);
    SortedFromKeys(r, ORDER - HALF, ks[HALF..]);
  }

  /** A full sorted internal node's right half holds its last 49 keys in
      order with the 50 pointers from slot 50 on. */
  lemma SplitRightInnerSorted(node: seq<byte>)
    requires |node| == WIDTH && SortedWith(node, ORDER)
    ensures var r := SplitRight(node, false);
      && SortedWith(r, ORDER - HALF - 1) && KeysOf(r, ORDER - HALF - 1) == KeysOf(node, ORDER)[HALF + 1..]
      && PtrsOf(r, ORDER - HALF) == PtrsOf(node, ORDER + 1)[HALF + 1..]
  {
    var r := SplitRight(node, false);
    var ks := KeysOf(node, ORDER);
    SplitRightInnerSlots(node);
    AscendingSlice(ks, HALF + 1, ORDER);
    SortedFromKeys(r, ORDER - HALF - 1, ks[HALF + 1..]);
  }

  // ---------------------------------------------------------------------
  // The separator

  /** The separator is the key of slot 49: every key of the left half is
      below it, and it is at most (for a leaf: equal to the first of) the
      keys of the right half. */
  lemma SeparatorBetween(node: seq<byte>)
    requires |node| == WIDTH && SortedWith(node, ORDER)
    ensures var ks := KeysOf(node, ORDER); var sep := Separator(node);
      && sep == ks[HALF] && NoNul(sep)
      && (forall u :: 0 <= u < HALF ==> Strncmp(ks[u], sep, HASH) < 0)
      && (forall u :: HALF < u < ORDER ==> Strncmp(sep, ks[u], HASH) < 0)
  {
    var ks := KeysOf(node, ORDER);
    assert Separator(node) == SlotKey(node, HALF);
  }

  // ---------------------------------------------------------------------
  // The new root

  /** The root `node_split` builds is an internal node with the one key sep
      between the old root (left) and the new node (right). */
  lemma NewRootShape(left: nat, sep: seq<byte>, right: nat)
    requires |sep| == HASH && NoNul(sep)
    ensures var root := NewRoot(left, sep, right);
      && !IsLeaf(root)
      && SortedWith(root, 1) && KeysOf(root, 1) == [sep]
      && PtrsOf(root, 2) == [Encode(left), Encode(right)]
  {
    var root := NewRoot(left, sep, right);
    assert CStr(sep) == sep;
    assert Strncpy(sep, HASH) == sep;
    EntryAt([0], Encode(left), sep, Encode(right), Zeros(WIDTH - 1 - SLOT - LONG), root);
    assert SlotKey(root, 0) == root[1 + 8..1 + 41];
    UnusedFrom(root, 1 + SLOT + LONG);
    SortedFromKeys(root, 1, [sep]);
  }
}
