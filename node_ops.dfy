/**
  The byte loops of `_insert` and `node_split` on node buffers, each proved
  to compute the node function of the same name in `Node`.
 */
module NodeOps {
  import opened Codec
  import opened Keys
  import opened Layout
  import opened Node

  /** `memcpy(dst + doff, src + soff, n)`. */
  method Memcpy(dst: array<byte>, doff: nat, src: seq<byte>, soff: nat, n: nat)
    requires doff + n <= dst.Length && soff + n <= |src|
    modifies dst
    ensures dst[..] == old(dst[..doff]) + src[soff..soff + n] + old(dst[doff + n..])
  {
    var j := 0;
    while j < n
      invariant 0 <= j <= n
      invariant forall t :: 0 <= t < dst.Length && !(doff <= t < doff + j) ==> dst[t] == old(dst[t])
      invariant forall t :: doff <= t < doff + j ==> dst[t] == src[t - doff + soff]
    {
      dst[doff + j] := src[soff + j];
      j := j + 1;
    }
    assert dst[..] == old(dst[..doff]) + src[soff..soff + n] + old(dst[doff + n..]);
  }

  /** `strncpy(dst + off, src, n)`: the bytes of src up to its NUL, then
      zeros up to n bytes. */
  method StrncpyTo(dst: array<byte>, off: nat, src: seq<byte>, n: nat)
    requires off + n <= dst.Length
    modifies dst
    ensures dst[..] == old(dst[..off]) + Strncpy(src, n) + old(dst[off + n..])
  {
    ghost var c := CStr(src);
    var j := 0;
    var pad := false;
    while j < n
      invariant 0 <= j <= n
      invariant pad ==> |c| <= j
      invariant !pad ==> j <= |c|
      invariant forall t :: 0 <= t < dst.Length && !(off <= t < off + j) ==> dst[t] == old(dst[t])
      invariant forall t :: 0 <= t < j ==> dst[off + t] == Strncpy(src, n)[t]
    {
      StrncpyAt(src, n, j);
      if !pad && j < |src| && src[j] != 0 {
        dst[off + j] := src[j];
      } else {
        pad := true;
        dst[off + j] := 0;
      }
      j := j + 1;
    }
    assert dst[..] == old(dst[..off]) + Strncpy(src, n) + old(dst[off + n..]);
  }

  /** The unused-slot case of `_insert`: addr, the key and, in an internal
      node, rptr written in place from offset p. */
  method FillAt(buf: array<byte>, p: nat, k: seq<byte>, addr: nat, rptr: nat, leaf: bool)
    requires buf.Length == WIDTH && |k| == HASH && NoNul(k) && p + |Entry(k, addr, rptr, leaf)| <= WIDTH
    modifies buf
    ensures buf[..] == Splice(old(buf[..]), p, Entry(k, addr, rptr, leaf), 0)
  {
    ghost var node := buf[..];
    ghost var e := Entry(k, addr, rptr, leaf);
    ToBig(buf, p, addr);
    StrncpyTo(buf, p + LONG, k, HASH);
    StrncpyNoNul(k, HASH);
    if !leaf {
      ToBig(buf, p + LONG + HASH, rptr);
    }
    forall t | 0 <= t < WIDTH
      ensures buf[t] == Splice(node, p, e, 0)[t]
    {
      SpliceAt(node, p, e, 0, t);
    }
    assert buf[..] == Splice(node, p, e, 0);
  }

  /** The greater-key case of `_insert`: a fresh node with node's bytes
      before p, the entry, and node's bytes from p on moved one slot right. */
  method ShiftInto(node: seq<byte>, p: nat, k: seq<byte>, addr: nat, rptr: nat, leaf: bool) returns (r: seq<byte>)
    requires |node| == WIDTH && |k| == HASH && NoNul(k) && p + |Entry(k, addr, rptr, leaf)| <= WIDTH
    ensures r == Splice(node, p, Entry(k, addr, rptr, leaf), SLOT)
  {
    ghost var e := Entry(k, addr, rptr, leaf);
    var m := p + (if leaf then SLOT else SLOT + LONG);
    var nnode := new byte[WIDTH](_ => 0);
    // the bytes before the slot, then the entry, then the rest from the old slot on
    Memcpy(nnode, 0, node, 0, p);
    ghost var s1 := nnode[..];
    FillAt(nnode, p, k, addr, rptr, leaf);
    ghost var s2 := nnode[..];
    Memcpy(nnode, m, node, m - SLOT, WIDTH - m);
    r := nnode[..];
    ShiftComposed(node, p, e, s1, s2, r);
  }

  /** The three copies of the greater-key case make up the splice. */
  lemma ShiftComposed(node: seq<byte>, p: nat, e: seq<byte>, s1: seq<byte>, s2: seq<byte>, r: seq<byte>)
    requires |node| == WIDTH && |s1| == WIDTH && SLOT <= |e| && p + |e| <= WIDTH
    requires s1[..p] == node[..p]
    requires s2 == Splice(s1, p, e, 0)
    requires r == s2[..p + |e|] + node[p + |e| - SLOT..WIDTH - SLOT] + s2[WIDTH..]
    ensures r == Splice(node, p, e, SLOT)
  {
    var m := p + |e|;
    assert s2[..m] == s1[..p] + e;
    assert r[..m] == s2[..m];
  }

  /** The cursor loop shared by `_insert` and `search`: from the first
      key offset, 41 bytes at a time, to the first slot that is unused or
      holds a key not below k; the offset past the last slot when none. */
  method ScanNode(node: seq<byte>, k: seq<byte>) returns (i: nat)
    requires |node| == WIDTH && |k| == HASH
    ensures i == KeyOff(Scan(node, k, 0))
  {
    i := LONG + 1;
    ghost var u := 0;
    while i < WIDTH
      invariant u <= ORDER && i == KeyOff(u)
      invariant Scan(node, k, u) == Scan(node, k, 0)
      decreases WIDTH - i
    {
      SlotSlices(node, u, i);
      if node[i] == 0 || Strncmp(node[i..i + HASH], k, HASH) >= 0 {
        assert Stops(node, k, u);
        return;
      }
      i := i + SLOT;
      u := u + 1;
    }
  }

  /** The placement step of `_insert` on the node of `path[index]`. */
  method PlaceInto(node: seq<byte>, k: seq<byte>, addr: nat, rptr: nat, leaf: bool) returns (r: seq<byte>)
    requires |node| == WIDTH && |k| == HASH && NoNul(k)
    ensures r == Place(node, k, addr, rptr, leaf)
  {
    var i := ScanNode(node, k);
    ghost var u := Scan(node, k, 0);
    if i >= WIDTH {
      PlaceNone(node, k, addr, rptr, leaf);
      return node;
    }
    ScanStopsAt(node, k, u);
    SlotSlices(node, u, i);
    var unused := node[i] == 0;
    var cmp := Strncmp(node[i..i + HASH], k, HASH);
    assert unused == !Filled(node, u) && cmp == Strncmp(SlotKey(node, u), k, HASH);
    if unused {
      PlaceUnused(node, k, addr, rptr, leaf, u, i - LONG);
      r := FillInto(node, i - LONG, k, addr, rptr, leaf);
      return;
    }
    if cmp == 0 {
      PlaceEqual(node, k, addr, rptr, leaf, u, i - LONG);
      if leaf {
        r := Repoint(node, i - LONG, addr);
        return;
      }
      return node;
    }
    PlaceGreater(node, k, addr, rptr, leaf, u, i - LONG);
    r := ShiftInto(node, i - LONG, k, addr, rptr, leaf);
  }

  // The case of `Place` the scan selects when it stops at slot u

  lemma PlaceUnused(node: seq<byte>, k: seq<byte>, addr: nat, rptr: nat, leaf: bool, u: nat, p: nat)
    requires |node| == WIDTH && |k| == HASH && u < ORDER && Scan(node, k, 0) == u && p == PtrOff(u)
    requires !Filled(node, u)
    ensures Place(node, k, addr, rptr, leaf) == Splice(node, p, Entry(k, addr, rptr, leaf), 0)
  {
  }

  lemma PlaceEqual(node: seq<byte>, k: seq<byte>, addr: nat, rptr: nat, leaf: bool, u: nat, p: nat)
    requires |node| == WIDTH && |k| == HASH && u < ORDER && Scan(node, k, 0) == u && p == PtrOff(u)
    requires Filled(node, u) && Strncmp(SlotKey(node, u), k, HASH) == 0
    ensures Place(node, k, addr, rptr, leaf) == if leaf then Splice(node, p, Encode(addr), 0) else node
  {
  }

  lemma PlaceGreater(node: seq<byte>, k: seq<byte>, addr: nat, rptr: nat, leaf: bool, u: nat, p: nat)
    requires |node| == WIDTH && |k| == HASH && u < ORDER && Scan(node, k, 0) == u && p == PtrOff(u)
    requires Filled(node, u) && Strncmp(SlotKey(node, u), k, HASH) > 0
    ensures Place(node, k, addr, rptr, leaf) == Splice(node, p, Entry(k, addr, rptr, leaf), SLOT)
  {
  }

  lemma PlaceNone(node: seq<byte>, k: seq<byte>, addr: nat, rptr: nat, leaf: bool)
    requires |node| == WIDTH && |k| == HASH && Scan(node, k, 0) == ORDER
    ensures Place(node, k, addr, rptr, leaf) == node
  {
  }

  /** An unused slot at offset p takes the entry in place. */
  method FillInto(node: seq<byte>, p: nat, k: seq<byte>, addr: nat, rptr: nat, leaf: bool) returns (r: seq<byte>)
    requires |node| == WIDTH && |k| == HASH && NoNul(k) && p + |Entry(k, addr, rptr, leaf)| <= WIDTH
    ensures r == Splice(node, p, Entry(k, addr, rptr, leaf), 0)
  {
    var buf := NodeBuffer(node);
    FillAt(buf, p, k, addr, rptr, leaf);
    r := buf[..];
  }

  /** A leaf slot at offset p that holds the key takes the new address. */
  method Repoint(node: seq<byte>, p: nat, addr: nat) returns (r: seq<byte>)
    requires |node| == WIDTH && p + LONG <= WIDTH
    ensures r == Splice(node, p, Encode(addr), 0)
  {
    var buf := NodeBuffer(node);
    ToBig(buf, p, addr);
    r := buf[..];
  }

  /** The node bytes as a buffer to write into. */
  method NodeBuffer(node: seq<byte>) returns (buf: array<byte>)
    ensures fresh(buf) && buf[..] == node
  {
    buf := new byte[|node|](t requires 0 <= t < |node| => node[t]);
  }

  // ---------------------------------------------------------------------
  // The buffers of node_split

  /** `lnode` before the link is written: `memset` to zeros, then the
      first `split` bytes of the node. */
  method LeftCopy(node: seq<byte>) returns (lnode: array<byte>)
    requires |node| == WIDTH
    ensures fresh(lnode) && lnode[..] == node[..SPLIT] + Zeros(WIDTH - SPLIT)
  {
    lnode := new byte[WIDTH](_ => 0);
    Memcpy(lnode, 0, node, 0, SPLIT);
    assert lnode[..] == node[..SPLIT] + Zeros(WIDTH - SPLIT);
  }

  /** Writing the right node's address at offset `split` completes `lnode`. */
  lemma LeftLinked(node: seq<byte>, raddr: nat, l: seq<byte>)
    requires |node| == WIDTH
    requires var c := node[..SPLIT] + Zeros(WIDTH - SPLIT); l == c[..SPLIT] + Encode(raddr) + c[SPLIT + LONG..]
    ensures l == SplitLeft(node, raddr)
  {
    var c := node[..SPLIT] + Zeros(WIDTH - SPLIT);
    assert c[..SPLIT] == node[..SPLIT];
    assert c[SPLIT + LONG..] == Zeros(WIDTH - SPLIT - LONG);
  }

  /** `rnode`: `memset` to zeros, the leaf flag, then the node's bytes from
      slot 49's pointer (a leaf) or slot 50's pointer (an internal node). */
  method RightNode(node: seq<byte>, leaf: bool) returns (r: seq<byte>)
    requires |node| == WIDTH
    ensures r == SplitRight(node, leaf)
  {
    var rnode := new byte[WIDTH](_ => 0);
    rnode[0] := if leaf then 1 else 0;
    ghost var done: seq<byte> := [rnode[0]];
    assert rnode[..] == done + Zeros(WIDTH - 1);
    var from := if leaf then SPLIT else SPLIT + SLOT;
    Memcpy(rnode, 1, node, from, WIDTH - from);
    assert node[from..from + (WIDTH - from)] == node[from..];
    done := Written(done, node[from..], WIDTH - 1, rnode[..]);
    r := rnode[..];
  }

  /** `root`: zeros, the flag 0, the old root's address, the separator
      copied with `strncpy`, and the right node's address. */
  method RootNode(left: nat, key: seq<byte>, right: nat) returns (r: seq<byte>)
    ensures r == NewRoot(left, key, right)
  {
    var root := new byte[WIDTH](_ => 0);
    root[0] := 0;
    // the bytes written so far, followed by the zeros of the allocation
    ghost var done: seq<byte> := [0];
    assert root[..] == done + Zeros(WIDTH - 1);
    ToBig(root, 1, left);
    done := Written(done, Encode(left), WIDTH - 1, root[..]);
    StrncpyTo(root, 1 + LONG, key, HASH);
    done := Written(done, Strncpy(key, HASH), WIDTH - 1 - LONG, root[..]);
    ToBig(root, 1 + LONG + HASH, right);
    done := Written(done, Encode(right), WIDTH - 1 - LONG - HASH, root[..]);
    r := root[..];
  }
}
