/**
  The storage engine of tree.c as functions on a value `State`: the file
  (a growable byte sequence), the root address kept in its header, and the
  `path` / `node_addrs` caches of `struct db`.  Each function gives the state
  after one C routine, or `Undefined` where the routine reads bytes that are
  not in the file or runs into a case the C code has no answer for.
 */
module Engine {
  import opened Codec
  import opened Keys
  import opened Layout
  import opened Node

  /** `_DEPTH`: the number of rows of `path`. */
  const DEPTH: nat := 10
  /** `_MAX`: the largest key length plus value length `put` accepts. */
  const MAX: nat := 0xf4240
  /** The uint64 `(uint64_t) -1` that `search` returns for a tree too deep. */
  const MINUS_ONE: nat := TWO_64 - 1

  datatype Option<T> = None | Some(value: T)

  datatype Outcome<T> = Undefined | Defined(value: T)

  /** The file, the root address, and the caches of `struct db`.  The model
      gives `path` and `node_addrs` one row more than the C arrays, since
      `search` may fill the row with index `_DEPTH`. */
  datatype State = State(file: seq<byte>, root: nat, path: seq<seq<byte>>, addrs: seq<nat>)

  predicate Wf(st: State)
  {
    && |st.path| == DEPTH + 1 && |st.addrs| == DEPTH + 1
    && forall i :: 0 <= i < |st.path| ==> |st.path[i]| == WIDTH
  }

  // ---------------------------------------------------------------------
  // The file

  /** `fseeko(off)` then `fwrite(data)`: the bytes at off become data; the
      file grows when data reaches past its end, a gap reading as zeros. */
  function WriteAt(file: seq<byte>, off: nat, data: seq<byte>): (r: seq<byte>)
    ensures |r| == if off + |data| <= |file| then |file| else off + |data|
    ensures r[off..off + |data|] == data
    ensures forall j :: 0 <= j < |file| && !(off <= j < off + |data|) ==> r[j] == file[j]
  {
    var f := if off <= |file| then file else file + Zeros(off - |file|);
    f[..off] + data + (if off + |data| <= |f| then f[off + |data|..] else [])
  }

  /** The value record `put` appends: an exists flag 1, the key's length,
      the key, the value's length, the value. */
  function Record(key: seq<byte>, value: seq<byte>): (rec: seq<byte>)
    ensures |rec| == |key| + |value| + 2 * LONG + 1
  {
    [1] + Encode(|key|) + key + Encode(|value|) + value
  }

  /** What `get` reads at a record's address: nothing when the exists byte
      is 0, else the value after the key. */
  function ReadRecord(file: seq<byte>, at: nat): Outcome<Option<seq<byte>>>
  {
    if at + 1 > |file| then Undefined
    else if file[at] == 0 then Defined(None)
    else if at + 1 + LONG > |file| then Undefined
    else
      var kl := Decode(file[at + 1..at + 1 + LONG]);
      var vat := at + 1 + LONG + kl;
      if vat + LONG > |file| then Undefined
      else
        var vl := Decode(file[vat..vat + LONG]);
        if vat + LONG + vl > |file| then Undefined
        else Defined(Some(file[vat + LONG..vat + LONG + vl]))
  }

  // ---------------------------------------------------------------------
  // search

  /** The result of `search`: the state with the caches filled, the uint64
      it returns and `*r_index`. */
  datatype Found = Found(st: State, ret: nat, index: nat)

  /** The `goto search` loop at level `index`, with the node already in
      `path[index]`. */
  function Descend(st: State, k: seq<byte>, index: nat): (r: Outcome<Found>)
    requires Wf(st) && |k| == HASH && index <= DEPTH
    ensures r.Defined? ==>
      && Wf(r.value.st) && r.value.index <= DEPTH
      && r.value.st.file == st.file && r.value.st.root == st.root
      && r.value.ret in {0, 1, MINUS_ONE}
    decreases DEPTH - index
  {
    var node := st.path[index];
    var s := Scan(node, k, 0);
    if s == ORDER then
      // every slot holds a smaller key: the C loop ends without a return
      Undefined
    else
      var hit := Strncmp(SlotKey(node, s), k, HASH) == 0;
      if IsLeaf(node) then
        if !hit then Defined(Found(st, 1, index))
        else
          var at := Decode(SlotPtr(node, s));
          if at + 1 > |st.file| then Undefined
          else Defined(Found(st, if st.file[at] == 0 then 1 else 0, index))
      else if index >= DEPTH then Defined(Found(st, MINUS_ONE, 0))
      else
        var addr := ChildAddr(node, k, s);
        if addr + WIDTH > |st.file| then Undefined
        else Descend(ReadNode(st, index + 1, addr), k, index + 1)
  }

  /** The child an internal node leads to from slot s: right of a matching
      key, left of a greater key or of an unused slot. */
  function ChildAddr(node: seq<byte>, k: seq<byte>, s: nat): nat
    requires |node| == WIDTH && |k| == HASH && s < ORDER
  {
    Decode(SlotPtr(node, if Strncmp(SlotKey(node, s), k, HASH) == 0 then s + 1 else s))
  }

  /** The node at addr read into level `level` of the cache. */
  function ReadNode(st: State, level: nat, addr: nat): (r: State)
    requires Wf(st) && level <= DEPTH && addr + WIDTH <= |st.file|
    ensures Wf(r) && r.file == st.file && r.root == st.root
  {
    st.(path := st.path[level := st.file[addr..addr + WIDTH]], addrs := st.addrs[level := addr])
  }

  /** `search(db, key, &r_index)`: loads the root and descends. */
  function SearchSpec(st: State, key: seq<byte>): Outcome<Found>
    requires Wf(st)
  {
    if st.root + WIDTH > |st.file| then Undefined
    else
      Descend(ReadNode(st, 0, st.root), IndexKey(key), 0)
  }

  // ---------------------------------------------------------------------
  // _insert and node_split

  /** `_insert(db, key, index, addr, rptr, isleaf)`: place the entry into
      `path[index]`, split it when its last slot is used, then write it
      back at `node_addrs[index]`. */
  function InsertSpec(st: State, key: seq<byte>, index: nat, addr: nat, rptr: nat, leaf: bool): (r: State)
    requires Wf(st) && index <= DEPTH && NoNul(key)
    ensures Wf(r) && r.addrs == st.addrs && |r.file| >= |st.file|
    decreases index, 1
  {
    var node := Place(st.path[index], IndexKey(key), addr, rptr, leaf);
    var st1 := st.(path := st.path[index := node]);
    var st2 := if NeedsSplit(node) then SplitSpec(st1, index, leaf) else st1;
    st2.(file := WriteAt(st2.file, st.addrs[index], st2.path[index]))
  }

  /** `node_split(db, index, isleaf)`: append the right half, keep the left
      half in `path[index]`, and hand the separator to the parent, or, at
      the root, append a new root and make it the root. */
  function SplitSpec(st: State, index: nat, leaf: bool): (r: State)
    requires Wf(st) && index <= DEPTH
    ensures Wf(r) && r.addrs == st.addrs && |r.file| >= |st.file| + WIDTH
    decreases index, 0
  {
    var node := st.path[index];
    var raddr := |st.file|;
    var st1 := st.(file := st.file + SplitRight(node, leaf),
                   path := st.path[index := SplitLeft(node, raddr)]);
    if index > 0 then
      InsertSpec(st1, CStr(Separator(node)), index - 1, st.addrs[index], raddr, false)
    else
      st1.(file := st1.file + NewRoot(st.addrs[0], Separator(node), raddr), root := |st1.file|)
  }

  // ---------------------------------------------------------------------
  // The public operations

  /** `put(db, key, value)` for C strings key and value: when `search` does
      not report a live key and the lengths are within `_MAX`, append the
      record and insert its address into the leaf. */
  function PutSpec(st: State, key: seq<byte>, value: seq<byte>): Outcome<State>
    requires Wf(st) && NoNul(key) && NoNul(value)
  {
    match SearchSpec(st, key)
    case Undefined => Undefined
    case Defined(f) =>
      if f.ret == 0 || |key| + |value| > MAX then Defined(f.st)
      else
        var st1 := f.st.(file := f.st.file + Record(key, value));
        Defined(InsertSpec(st1, key, f.index, |f.st.file|, 0, true))
  }

  /** The first slot of `get`'s loop whose key equals k, or `_ORDER`. */
  function FirstMatch(node: seq<byte>, k: seq<byte>, u: nat): (r: nat)
    requires |node| == WIDTH && |k| == HASH && u <= ORDER
    ensures u <= r <= ORDER
    decreases ORDER - u
  {
    if u == ORDER then ORDER
    else if Strncmp(SlotKey(node, u), k, HASH) == 0 then u
    else FirstMatch(node, k, u + 1)
  }

  datatype Got = Got(st: State, value: Option<seq<byte>>)

  /** `get(db, key)` for a C string key: for a key `search` reports live, the value of the
      record the leaf's matching slot points to; otherwise nothing. */
  function GetSpec(st: State, key: seq<byte>): Outcome<Got>
    requires Wf(st) && NoNul(key)
  {
    match SearchSpec(st, Normalize(key))
    case Undefined => Undefined
    case Defined(f) =>
      if f.ret != 0 then Defined(Got(f.st, None))
      else
        var node := f.st.path[f.index];
        var u := FirstMatch(node, IndexKey(key), 0);
        if u == ORDER then Defined(Got(f.st, None))
        else
          match ReadRecord(f.st.file, Decode(SlotPtr(node, u)))
          case Undefined => Undefined
          case Defined(v) => Defined(Got(f.st, v))
  }

  /** `delete`'s loop from byte offset i of the leaf: each match writes a
      0 at the record its pointer names, and the scan goes on from eight
      bytes before the next key. */
  function DelLoop(file: seq<byte>, node: seq<byte>, k: seq<byte>, i: nat): Outcome<seq<byte>>
    requires |node| == WIDTH && |k| == HASH && LONG <= i
    decreases WIDTH - i
  {
    if i >= WIDTH then Defined(file)
    else if !Within(node[i..], k, HASH) then Undefined
    else if Strncmp(node[i..], k, HASH) == 0 then
      DelLoop(WriteAt(file, Decode(node[i - LONG..i]), [0]), node, k, i - LONG + SLOT)
    else DelLoop(file, node, k, i + SLOT)
  }

  /** `delete(db, key)` for a C string key: for a key `search` reports live, write the
      tombstone 0 over the exists byte of the records the leaf points to. */
  function DeleteSpec(st: State, key: seq<byte>): Outcome<State>
    requires Wf(st) && NoNul(key)
  {
    match SearchSpec(st, Normalize(key))
    case Undefined => Undefined
    case Defined(f) =>
      if f.ret != 0 then Defined(f.st)
      else
        match DelLoop(f.st.file, f.st.path[f.index], IndexKey(key), KeyOff(0))
        case Undefined => Undefined
        case Defined(file) => Defined(f.st.(file := file))
  }

  /** The empty caches of a fresh `struct db`. */
  function NoCache(): (st: State)
    ensures Wf(st)
  {
    State([], 0, seq(DEPTH + 1, _ => Zeros(WIDTH)), seq(DEPTH + 1, _ => 0))
  }

  /** The node `db_init` writes into a new file: an empty leaf. */
  function EmptyLeaf(): (node: seq<byte>)
    ensures |node| == WIDTH
  {
    [1] + Zeros(WIDTH - 1)
  }

  /** `db_init(db, name)`: an existing file (with its root address) is
      opened as it is; otherwise the file is created with the root address
      8 in its header followed by an empty leaf. */
  function InitSpec(existing: Option<(seq<byte>, nat)>): (st: State)
    ensures Wf(st)
  {
    match existing
    case Some((file, root)) => NoCache().(file := file, root := root)
    case None => NoCache().(file := Zeros(LONG) + EmptyLeaf(), root := LONG)
  }
}
