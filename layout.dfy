/**
  The fixed-width node of tree.c: slot offsets, the view of a node as keys
  and pointers, and the left-to-right scan that `_insert`, `search` and
  `get` share.

  A node is `_WIDTH` = 4068 bytes: byte 0 is the leaf flag, then come
  `_ORDER` = 99 slots of 41 bytes (an 8-byte big-endian pointer followed by
  a 33-byte key) and a trailing 8-byte pointer.  A slot whose first key byte
  is 0 is unused.  In a leaf a slot's pointer is the file offset of a value
  record; in an internal node it is the child holding the keys below the
  slot's key, and the pointer after the last used key holds the rest.
 */
module Layout {
  import opened Codec
  import opened Keys

  /** `_ORDER`: key slots per node. */
  const ORDER: nat := 99
  /** Bytes per slot, `_HASH + SIZEOF_LONG`. */
  const SLOT: nat := 41
  /** `_WIDTH` = 1 + _HASH*_ORDER + SIZEOF_LONG*(_ORDER+1). */
  const WIDTH: nat := 4068
  /** Where `node_split` cuts: `(_HASH+SIZEOF_LONG)*(_ORDER>>1)+1`, the pointer of slot 49. */
  const SPLIT: nat := 2010
  /** Index of the first key slot of the left node that is not kept by a split. */
  const HALF: nat := 49
  /** `_WIDTH-(_HASH+SIZEOF_LONG)`: the first byte of the last key slot. */
  const LAST: nat := 4027

  lemma ConstantsAgree()
    ensures SLOT == HASH + LONG
    ensures WIDTH == 1 + HASH * ORDER + LONG * (ORDER + 1)
    ensures HALF == ORDER / 2 && SPLIT == SLOT * HALF + 1
    ensures LAST == WIDTH - SLOT
  {
  }

  function Zeros(n: nat): (r: seq<byte>)
    ensures |r| == n && forall j :: 0 <= j < n ==> r[j] == 0
  {
    seq(n, _ => 0)
  }

  /** The bytes s after `memcpy(s + off, d, |d|)`. */
  function Overwrite(s: seq<byte>, off: nat, d: seq<byte>): (r: seq<byte>)
    requires off + |d| <= |s|
    ensures |r| == |s|
  {
    s[..off] + d + s[off + |d|..]
  }

  lemma OverwriteAt(s: seq<byte>, off: nat, d: seq<byte>, j: nat)
    requires off + |d| <= |s| && j < |s|
    ensures Overwrite(s, off, d)[j] == if off <= j < off + |d| then d[j - off] else s[j]
  {
  }

  /** The node with e written at offset p and the bytes after it taken from
      d bytes further left: d = 0 overwrites in place, d = `SLOT` shifts the
      rest right by one slot and drops the last `SLOT` bytes. */
  function Splice(node: seq<byte>, p: nat, e: seq<byte>, d: nat): (r: seq<byte>)
    requires d <= |e| && p + |e| <= |node|
    ensures |r| == |node|
  {
    node[..p] + e + node[p + |e| - d..|node| - d]
  }

  lemma SpliceShape(node: seq<byte>, p: nat, e: seq<byte>, d: nat)
    requires d <= |e| && p + |e| <= |node|
    ensures var r := Splice(node, p, e, d);
      && r[..p] == node[..p] && r[p..p + |e|] == e
      && r[p + |e|..] == node[p + |e| - d..|node| - d]
      && forall j :: p + |e| <= j < |node| ==> r[j] == node[j - d]
  {
    var r := Splice(node, p, e, d);
    assert r[..p] == node[..p];
    assert r[p..p + |e|] == e;
    assert r[p + |e|..] == node[p + |e| - d..|node| - d];
  }

  /** Byte t of a splice. */
  lemma SpliceAt(node: seq<byte>, p: nat, e: seq<byte>, d: nat, t: nat)
    requires d <= |e| && p + |e| <= |node| && t < |node|
    ensures Splice(node, p, e, d)[t] == if t < p then node[t] else if t < p + |e| then e[t - p] else node[t - d]
  {
  }

  lemma SliceEq(r: seq<byte>, s: seq<byte>, a: nat, b: nat)
    requires a <= b <= |r| && b <= |s|
    requires forall j :: a <= j < b ==> r[j] == s[j]
    ensures r[a..b] == s[a..b]
  {
  }

  lemma SliceShift(r: seq<byte>, s: seq<byte>, d: int, a: nat, b: nat)
    requires a <= b <= |r| && 0 <= a + d && b + d <= |s|
    requires forall j :: a <= j < b ==> r[j] == s[j + d]
    ensures r[a..b] == s[a + d..b + d]
  {
    assert forall j :: 0 <= j < b - a ==> r[a..b][j] == s[a + d..b + d][j];
  }

  // ---------------------------------------------------------------------
  // Slots

  /** Offset of slot s's pointer; slot `_ORDER` is the trailing pointer. */
  function PtrOff(s: nat): nat
  {
    1 + 41 * s
  }

  function KeyOff(s: nat): nat
  {
    PtrOff(s) + 8
  }

  function SlotPtr(node: seq<byte>, s: nat): (r: seq<byte>)
    requires |node| == WIDTH && s <= ORDER
    ensures |r| == LONG
  {
    node[PtrOff(s)..PtrOff(s) + 8]
  }

  function SlotKey(node: seq<byte>, s: nat): (r: seq<byte>)
    requires |node| == WIDTH && s < ORDER
    ensures |r| == HASH
  {
    node[KeyOff(s)..KeyOff(s) + 33]
  }

  /** A slot is used when its first key byte is not 0. */
  predicate Filled(node: seq<byte>, s: nat)
    requires |node| == WIDTH && s < ORDER
  {
    node[KeyOff(s)] != 0
  }

  predicate IsLeaf(node: seq<byte>)
    requires |node| == WIDTH
  {
    node[0] != 0
  }

  /** Number of leading used slots. */
  function CountFrom(node: seq<byte>, t: nat): (r: nat)
    requires |node| == WIDTH && t <= ORDER
    ensures t <= r <= ORDER
    ensures forall u :: t <= u < r ==> Filled(node, u)
    ensures r < ORDER ==> !Filled(node, r)
    decreases ORDER - t
  {
    if t == ORDER || !Filled(node, t) then t else CountFrom(node, t + 1)
  }

  function Count(node: seq<byte>): nat
    requires |node| == WIDTH
  {
    CountFrom(node, 0)
  }

  /** The keys of the first n slots. */
  function KeysOf(node: seq<byte>, n: nat): (ks: seq<seq<byte>>)
    requires |node| == WIDTH && n <= ORDER
    ensures |ks| == n && forall u :: 0 <= u < n ==> ks[u] == SlotKey(node, u)
  {
    seq(n, u requires 0 <= u < n => SlotKey(node, u))
  }

  /** The pointers of the first n slots (slot `_ORDER` is the trailing one). */
  function PtrsOf(node: seq<byte>, n: nat): (ps: seq<seq<byte>>)
    requires |node| == WIDTH && n <= ORDER + 1
    ensures |ps| == n && forall u :: 0 <= u < n ==> ps[u] == SlotPtr(node, u)
  {
    seq(n, u requires 0 <= u < n => SlotPtr(node, u))
  }

  /** The first n slots are used and hold NUL-free keys, strictly ascending
      under strncmp; every later slot is unused. */
  predicate SortedWith(node: seq<byte>, n: nat)
    requires |node| == WIDTH
  {
    && n <= ORDER
    && (forall u :: 0 <= u < n ==> Filled(node, u))
    && (forall u :: n <= u < ORDER ==> !Filled(node, u))
    && Ascending(KeysOf(node, n))
  }

  predicate Sorted(node: seq<byte>)
    requires |node| == WIDTH
  {
    SortedWith(node, Count(node))
  }

  lemma {:induction false} CountFromIs(node: seq<byte>, t: nat, n: nat)
    requires |node| == WIDTH && t <= n <= ORDER
    requires forall u :: t <= u < n ==> Filled(node, u)
    requires n < ORDER ==> !Filled(node, n)
    ensures CountFrom(node, t) == n
    decreases n - t
  {
    if t < n {
      CountFromIs(node, t + 1, n);
    }
  }

  lemma SortedWithCount(node: seq<byte>, n: nat)
    requires |node| == WIDTH && SortedWith(node, n)
    ensures Count(node) == n && Sorted(node)
  {
    CountFromIs(node, 0, n);
  }

  /** A node whose first m slots hold the ascending keys ks and whose later
      slots are unused is sorted with exactly those keys. */
  lemma SortedFromKeys(node: seq<byte>, m: nat, ks: seq<seq<byte>>)
    requires |node| == WIDTH && m <= ORDER && |ks| == m && Ascending(ks)
    requires forall u :: 0 <= u < m ==> SlotKey(node, u) == ks[u]
    requires forall u :: m <= u < ORDER ==> !Filled(node, u)
    ensures SortedWith(node, m) && KeysOf(node, m) == ks
  {
    forall u | 0 <= u < m
      ensures Filled(node, u)
    {
      assert node[KeyOff(u)] == SlotKey(node, u)[0];
    }
    assert KeysOf(node, m) == ks;
  }

  // ---------------------------------------------------------------------
  // The scan shared by `_insert`, `search`, `get`

  /** Slot u ends the scan for key k: it is unused, holds k, or holds a
      greater key. */
  predicate Stops(node: seq<byte>, k: seq<byte>, u: nat)
    requires |node| == WIDTH && |k| == HASH && u < ORDER
  {
    !Filled(node, u) || Strncmp(SlotKey(node, u), k, HASH) >= 0
  }

  /** The slot where the left-to-right scan from slot t stops, or `_ORDER`
      when every slot holds a smaller key. */
  function Scan(node: seq<byte>, k: seq<byte>, t: nat): (r: nat)
    requires |node| == WIDTH && |k| == HASH && t <= ORDER
    ensures t <= r <= ORDER
    decreases ORDER - t
  {
    if t == ORDER then ORDER
    else if Stops(node, k, t) then t
    else Scan(node, k, t + 1)
  }

  /** The scan passes only slots that do not stop it, and stops at one that
      does unless it runs off the node. */
  lemma {:induction false} ScanStops(node: seq<byte>, k: seq<byte>, t: nat)
    requires |node| == WIDTH && |k| == HASH && t <= ORDER
    ensures var r := Scan(node, k, t);
      && (forall u :: t <= u < r ==> !Stops(node, k, u))
      && (r < ORDER ==> Stops(node, k, r))
    decreases ORDER - t
  {
    if t < ORDER && !Stops(node, k, t) {
      ScanStops(node, k, t + 1);
      assert Scan(node, k, t) == Scan(node, k, t + 1);
    }
  }

  /** The slot the scan from slot 0 stops at, if any, stops it. */
  lemma ScanStopsAt(node: seq<byte>, k: seq<byte>, s: nat)
    requires |node| == WIDTH && |k| == HASH && s == Scan(node, k, 0) < ORDER
    ensures Stops(node, k, s)
  {
    ScanStops(node, k, 0);
  }

  /** The scan stops at the first slot that stops it: any s that no earlier
      slot stops, and that stops it itself unless it is `_ORDER`, is the
      scan's result. */
  lemma ScanIs(node: seq<byte>, k: seq<byte>, s: nat)
    requires |node| == WIDTH && |k| == HASH && s <= ORDER
    requires forall u :: 0 <= u < s ==> !Stops(node, k, u)
    requires s < ORDER ==> Stops(node, k, s)
    ensures Scan(node, k, 0) == s
  {
    ScanStops(node, k, 0);
    ScanBound(node, k, 0, s);
  }

  lemma {:induction false} ScanBound(node: seq<byte>, k: seq<byte>, t: nat, n: nat)
    requires |node| == WIDTH && |k| == HASH && t <= n <= ORDER
    requires n < ORDER ==> Stops(node, k, n)
    ensures Scan(node, k, t) <= n
    decreases n - t
  {
    if t < n && !Stops(node, k, t) {
      ScanBound(node, k, t + 1, n);
      assert Scan(node, k, t) == Scan(node, k, t + 1);
    }
  }

  /** A scan of a sorted node never passes its first unused slot. */
  lemma ScanSorted(node: seq<byte>, k: seq<byte>, n: nat)
    requires |node| == WIDTH && |k| == HASH && SortedWith(node, n)
    ensures Scan(node, k, 0) <= n
  {
    ScanBound(node, k, 0, n);
  }

  /** In a sorted node every key before the slot where the scan for k
      stops is smaller than k, and the key at that slot (if used) is not. */
  lemma ScanSortedBounds(node: seq<byte>, k: seq<byte>, n: nat)
    requires |node| == WIDTH && |k| == HASH && NoNul(k) && SortedWith(node, n)
    ensures var s := Scan(node, k, 0); var ks := KeysOf(node, n);
      && s <= n
      && (forall u :: 0 <= u < s ==> Strncmp(ks[u], k, HASH) < 0)
      && (s < n ==> Strncmp(k, ks[s], HASH) <= 0)
  {
    ScanSorted(node, k, n);
    ScanPassed(node, k, n, KeysOf(node, n), Scan(node, k, 0));
  }

  /** The keys the scan passes are smaller than k; a used slot where it
      stops holds a key that is not. */
  lemma ScanPassed(node: seq<byte>, k: seq<byte>, n: nat, ks: seq<seq<byte>>, s: nat)
    requires |node| == WIDTH && |k| == HASH && NoNul(k) && n <= ORDER
    requires ks == KeysOf(node, n) && s == Scan(node, k, 0) <= n
    requires forall u :: 0 <= u < n ==> Filled(node, u)
    ensures forall u :: 0 <= u < s ==> Strncmp(ks[u], k, HASH) < 0
    ensures s < n ==> Strncmp(k, ks[s], HASH) <= 0
  {
    ScanStops(node, k, 0);
    forall u | 0 <= u < s
      ensures Strncmp(ks[u], k, HASH) < 0
    {
      assert !Stops(node, k, u);
    }
    if s < n {
      assert Stops(node, k, s) && Filled(node, s);
      StrncmpAntisym(ks[s], k, HASH);
    }
  }

  /** In a sorted node the scan for a NUL-free key k stops at the slot
      holding k exactly when k is one of the node's keys. */
  lemma ScanSortedSpec(node: seq<byte>, k: seq<byte>, n: nat)
    requires |node| == WIDTH && |k| == HASH && NoNul(k) && SortedWith(node, n)
    ensures var s := Scan(node, k, 0); var ks := KeysOf(node, n);
      s <= n && (k in ks <==> s < n && ks[s] == k)
  {
    var s := Scan(node, k, 0);
    var ks := KeysOf(node, n);
    ScanSortedBounds(node, k, n);
    assert k[..HASH] == k;
    StrncmpZero(k, k, HASH);
    assert forall u :: 0 <= u < s ==> ks[u] != k;
    if s < n {
      StrncmpAntisym(k, ks[s], HASH);
      forall u | s < u < n
        ensures ks[u] != k
      {
        assert Strncmp(ks[s], ks[u], HASH) < 0;
      }
    }
  }

  // ---------------------------------------------------------------------
  // Slicing

  lemma SliceLeft(a: seq<byte>, b: seq<byte>, i: nat, j: nat)
    requires i <= j <= |a|
    ensures (a + b)[i..j] == a[i..j]
  {
    assert forall t :: 0 <= t < j - i ==> (a + b)[i..j][t] == a[i..j][t];
  }

  lemma SliceRight(a: seq<byte>, b: seq<byte>, i: nat, j: nat)
    requires |a| <= i <= j <= |a| + |b|
    ensures (a + b)[i..j] == b[i - |a|..j - |a|]
  {
    assert forall t :: 0 <= t < j - i ==> (a + b)[i..j][t] == b[i - |a|..j - |a|][t];
  }

  /** The bytes around key offset i of slot s: the key, the pointer
      before it and the pointer after it. */
  lemma SlotSlices(node: seq<byte>, s: nat, i: nat)
    requires |node| == WIDTH && s < ORDER && i == KeyOff(s)
    ensures LONG <= i && i + HASH + LONG <= WIDTH
    ensures node[i..i + HASH] == SlotKey(node, s)
    ensures node[i - LONG..i] == SlotPtr(node, s)
    ensures node[i + HASH..i + HASH + LONG] == SlotPtr(node, s + 1)
  {
  }

  /** Writing x right after the bytes already written, into the zeros that
      follow them, extends the written prefix by x. */
  lemma Written(done: seq<byte>, x: seq<byte>, m: nat, buf: seq<byte>) returns (done': seq<byte>)
    requires |x| <= m
    requires buf == (done + Zeros(m))[..|done|] + x + (done + Zeros(m))[|done| + |x|..]
    ensures done' == done + x && buf == done' + Zeros(m - |x|)
  {
    done' := done + x;
    assert (done + Zeros(m))[..|done|] == done;
    assert (done + Zeros(m))[|done| + |x|..] == Zeros(m - |x|);
  }

  lemma TakeSlice(s: seq<byte>, m: nat, a: nat, b: nat)
    requires a <= b <= m <= |s|
    ensures s[..m][a..b] == s[a..b]
  {
    assert forall t :: 0 <= t < b - a ==> s[..m][a..b][t] == s[a..b][t];
  }

  lemma DropSlice(s: seq<byte>, m: nat, a: nat, b: nat)
    requires m <= a <= b <= |s|
    ensures s[m..][a - m..b - m] == s[a..b]
  {
    assert forall t :: 0 <= t < b - a ==> s[m..][a - m..b - m][t] == s[a..b][t];
  }

  /** Two nodes that agree on their first m bytes agree on every slot that
      lies there. */
  lemma SamePrefix(r: seq<byte>, node: seq<byte>, m: nat)
    requires |r| == WIDTH && |node| == WIDTH && m <= WIDTH && r[..m] == node[..m]
    ensures forall u :: 0 <= u < ORDER && KeyOff(u) + 33 <= m ==>
      SlotKey(r, u) == SlotKey(node, u) && (Filled(r, u) <==> Filled(node, u))
    ensures forall u :: 0 <= u <= ORDER && PtrOff(u) + 8 <= m ==> SlotPtr(r, u) == SlotPtr(node, u)
    ensures 0 < m ==> (IsLeaf(r) <==> IsLeaf(node))
  {
    forall u | 0 <= u < ORDER && KeyOff(u) + 33 <= m
      ensures SlotKey(r, u) == SlotKey(node, u) && (Filled(r, u) <==> Filled(node, u))
    {
      TakeSlice(r, m, KeyOff(u), KeyOff(u) + 33);
      TakeSlice(node, m, KeyOff(u), KeyOff(u) + 33);
    }
    forall u | 0 <= u <= ORDER && PtrOff(u) + 8 <= m
      ensures SlotPtr(r, u) == SlotPtr(node, u)
    {
      TakeSlice(r, m, PtrOff(u), PtrOff(u) + 8);
      TakeSlice(node, m, PtrOff(u), PtrOff(u) + 8);
    }
    if 0 < m {
      assert r[0] == r[..m][0];
    }
  }

  /** Two nodes that agree from byte m on agree on every slot that lies
      there. */
  lemma SameSuffix(r: seq<byte>, node: seq<byte>, m: nat)
    requires |r| == WIDTH && |node| == WIDTH && m <= WIDTH && r[m..] == node[m..]
    ensures forall u :: 0 <= u < ORDER && m <= KeyOff(u) ==>
      SlotKey(r, u) == SlotKey(node, u) && (Filled(r, u) <==> Filled(node, u))
    ensures forall u :: 0 <= u <= ORDER && m <= PtrOff(u) ==> SlotPtr(r, u) == SlotPtr(node, u)
  {
    forall u | 0 <= u < ORDER && m <= KeyOff(u)
      ensures SlotKey(r, u) == SlotKey(node, u) && (Filled(r, u) <==> Filled(node, u))
    {
      DropSlice(r, m, KeyOff(u), KeyOff(u) + 33);
      DropSlice(node, m, KeyOff(u), KeyOff(u) + 33);
      assert r[KeyOff(u)] == r[m..][KeyOff(u) - m];
      assert node[KeyOff(u)] == node[m..][KeyOff(u) - m];
    }
    forall u | 0 <= u <= ORDER && m <= PtrOff(u)
      ensures SlotPtr(r, u) == SlotPtr(node, u)
    {
      DropSlice(r, m, PtrOff(u), PtrOff(u) + 8);
      DropSlice(node, m, PtrOff(u), PtrOff(u) + 8);
    }
  }

  /** Where the pieces of a spliced entry sit. */
  lemma EntryAt(pre: seq<byte>, a: seq<byte>, k: seq<byte>, tail: seq<byte>, post: seq<byte>, r: seq<byte>)
    requires |a| == LONG && |k| == HASH && r == pre + a + k + tail + post
    ensures var p := |pre|;
      && r[..p] == pre && r[p..p + 8] == a && r[p + 8..p + 41] == k
      && r[p + 41..p + 41 + |tail|] == tail && r[p + 41 + |tail|..] == post
  {
    var p := |pre|;
    assert r[..p] == pre;
    assert r[p..p + 8] == a;
    assert r[p + 8..p + 41] == k;
    assert r[p + 41..p + 41 + |tail|] == tail;
    assert r[p + 41 + |tail|..] == post;
  }

  /** r ends with the bytes of node moved d to the right from offset m. */
  lemma ShiftedTail(node: seq<byte>, r: seq<byte>, m: nat, d: nat)
    requires |r| == |node| && d <= m <= |r| && r[m..] == node[m - d..|node| - d]
    ensures forall j :: m <= j < |r| ==> r[j] == node[j - d]
  {
    forall j | m <= j < |r|
      ensures r[j] == node[j - d]
    {
      assert r[j] == r[m..][j - m];
    }
  }
}
