/**
  The two in-node algorithms of tree.c: the placement step of `_insert`
  (tree.c:150-192) and the cut of `node_split` (tree.c:103-121, 126-131).
 */
module Node {
  import opened Codec
  import opened Keys
  import opened Layout

  // ---------------------------------------------------------------------
  // Placement: the loop of `_insert` before the split test

  /** The bytes `_insert` writes at the slot it stops at: the pointer, the
      key and, in an internal node, the right pointer. */
  function Entry(k: seq<byte>, addr: nat, rptr: nat, leaf: bool): (e: seq<byte>)
    ensures |e| == |k| + (if leaf then 8 else 16)
  {
    Encode(addr) + k + (if leaf then [] else Encode(rptr))
  }

  /** The node after `_insert` has placed (addr, k[, rptr]); k is the already
      padded key. */
  function Place(node: seq<byte>, k: seq<byte>, addr: nat, rptr: nat, leaf: bool): (r: seq<byte>)
    requires |node| == WIDTH && |k| == HASH
    ensures |r| == WIDTH
  {
    var s := Scan(node, k, 0);
    if s == ORDER then node
    else if !Filled(node, s) then
      // unused slot: the entry overwrites it in place
      Splice(node, PtrOff(s), Entry(k, addr, rptr, leaf), 0)
    else if Strncmp(SlotKey(node, s), k, HASH) == 0 then
      // exact match: a leaf repoints the slot, an internal node is left alone
      if leaf then Splice(node, PtrOff(s), Encode(addr), 0) else node
    else
      // first greater key: the entry goes in and the rest moves one slot
      // right; an internal node loses the pointer the entry replaces
      Splice(node, PtrOff(s), Entry(k, addr, rptr, leaf), SLOT)
  }

  /** The split test after placement: the last key slot is used. */
  predicate NeedsSplit(node: seq<byte>)
    requires |node| == WIDTH
  {
    node[LAST] != 0
  }

  // ---------------------------------------------------------------------
  // node_split

  /** `lnode`: the first `split` bytes (the flag and slots 0..48), the new
      right node's address in slot 49's pointer, zeros after. */
  function SplitLeft(node: seq<byte>, raddr: nat): (l: seq<byte>)
    requires |node| == WIDTH
    ensures |l| == WIDTH
  {
    node[..SPLIT] + Encode(raddr) + Zeros(WIDTH - SPLIT - LONG)
  }

  /** `rnode`: the leaf flag, then the bytes from slot 49's pointer (a leaf)
      or from slot 50's pointer (an internal node), zeros after. */
  function SplitRight(node: seq<byte>, leaf: bool): (r: seq<byte>)
    requires |node| == WIDTH
    ensures |r| == WIDTH
  {
    if leaf then [1] + node[SPLIT..] + Zeros(SPLIT - 1)
    else [0] + node[SPLIT + SLOT..] + Zeros(SPLIT + SLOT - 1)
  }

  /** The key copied out of slot 49 and promoted to the parent. */
  function Separator(node: seq<byte>): (sep: seq<byte>)
    requires |node| == WIDTH
    ensures |sep| == HASH
  {
    node[SPLIT + LONG..SPLIT + SLOT]
  }

  /** The root `node_split` appends when the root itself splits: an internal
      node with the old root left of the separator and the new node right of
      it. */
  function NewRoot(left: nat, sep: seq<byte>, right: nat): (root: seq<byte>)
    ensures |root| == WIDTH
  {
    [0] + Encode(left) + Strncpy(sep, HASH) + Encode(right) + Zeros(WIDTH - 1 - SLOT - LONG)
  }
}
