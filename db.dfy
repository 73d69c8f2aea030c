/**
  `struct db` and the routines of tree.c as a class: the file and the root
  address are fields the methods reassign, and `path` / `node_addrs` are
  arrays the methods update row by row.  Each method is proved to leave
  the state its function in `Engine` describes.
 */
module Tree {
  import opened Codec
  import opened Keys
  import opened Layout
  import opened Node
  import opened NodeOps
  import opened Engine
  import opened EngineFacts

  /** The 17 + k + v bytes `put` builds: the exists flag, `to_big` of the
      key length, the key, `to_big` of the value length, the value. */
  method MakeRecord(key: seq<byte>, value: seq<byte>) returns (rec: seq<byte>)
    requires NoNul(key) && NoNul(value)
    ensures rec == Record(key, value)
  {
    var kl := |key|;
    var vl := |value|;
    var n := kl + vl + LONG + LONG + 1;
    var nnode := new byte[n](_ => 0);
    nnode[0] := 1;
    // the bytes written so far, followed by the zeros of the allocation
    ghost var done: seq<byte> := [1];
    assert nnode[..] == done + Zeros(n - 1);
    ToBig(nnode, 1, kl);
    done := Written(done, Encode(kl), n - 1, nnode[..]);
    StrncpyTo(nnode, LONG + 1, key, kl);
    StrncpyNoNul(key, kl);
    done := Written(done, key, n - 1 - LONG, nnode[..]);
    ToBig(nnode, LONG + kl + 1, vl);
    done := Written(done, Encode(vl), n - 1 - LONG - kl, nnode[..]);
    StrncpyTo(nnode, LONG + kl + LONG + 1, value, vl);
    StrncpyNoNul(value, vl);
    done := Written(done, value, vl, nnode[..]);
    rec := nnode[..];
    assert rec == done + [];
  }

  class Db {
    /** The database file. */
    var file: seq<byte>
    /** The root address the file's header holds. */
    var root: nat
    /** `db->path`: the nodes read on the last descent, one per level. */
    const path: array<seq<byte>>
    /** `db->node_addrs`: the file address of each node in `path`. */
    const addrs: array<nat>

    ghost predicate Valid()
      reads this, path, addrs
    {
      && path.Length == DEPTH + 1 && addrs.Length == DEPTH + 1
      && forall i :: 0 <= i < path.Length ==> |path[i]| == WIDTH
    }

    function Abs(): (st: State)
      reads this, path, addrs
      requires Valid()
      ensures Wf(st)
    {
      State(file, root, path[..], addrs[..])
    }

    /** `db_init`: open the existing file, or create one holding the root
        address 8 and an empty leaf. */
    constructor Init(existing: Option<(seq<byte>, nat)>)
      ensures Valid() && Abs() == InitSpec(existing)
    {
      path := new seq<byte>[DEPTH + 1](_ => Zeros(WIDTH));
      addrs := new nat[DEPTH + 1](_ => 0);
      match existing {
        case Some((f, r)) =>
          file := f;
          root := r;
        case None =>
          var zero := new byte[WIDTH](_ => 0);
          zero[0] := 1;
          file := WriteAt(WriteAt([], 0, Zeros(LONG)), LONG, zero[..]);
          root := LONG;
          assert zero[..] == EmptyLeaf();
      }
      new;
      assert path[..] == NoCache().path;
      assert addrs[..] == NoCache().addrs;
    }

    /** `search(db, key, &r_index)`. */
    method Search(key: seq<byte>) returns (ret: nat, index: nat)
      requires Valid() && SearchSpec(Abs(), key).Defined?
      modifies path, addrs
      ensures Valid() && index <= DEPTH
      ensures SearchSpec(old(Abs()), key) == Defined(Found(Abs(), ret, index))
    {
      ghost var spec := SearchSpec(Abs(), key);
      SearchStart(Abs(), key);
      Load(0, root);
      ret, index := Walk(IndexKey(key), spec);
    }

    /** The loop of `search`: from the root in row 0, one level per turn
        until a leaf or the depth bound ends the descent. */
    method Walk(k: seq<byte>, ghost spec: Outcome<Found>) returns (ret: nat, index: nat)
      requires Valid() && |k| == HASH && spec.Defined? && Descend(Abs(), k, 0) == spec
      modifies path, addrs
      ensures Valid() && index <= DEPTH && spec == Defined(Found(Abs(), ret, index))
    {
      index, ret := 0, 0;
      var done := false;
      while !done
        invariant Valid() && index <= DEPTH
        invariant !done ==> Descend(Abs(), k, index) == spec
        invariant done ==> spec == Defined(Found(Abs(), ret, index))
        decreases if done then 0 else DEPTH + 1 - index
      {
        done, ret, index := Step(k, index);
      }
    }

    /** `put(db, key, value)` for C strings key and value. */
    method Put(key: seq<byte>, value: seq<byte>)
      requires Valid() && NoNul(key) && NoNul(value) && PutSpec(Abs(), key, value).Defined?
      modifies this, path, addrs
      ensures Valid() && PutSpec(old(Abs()), key, value) == Defined(Abs())
    {
      var ret, index := Search(key);
      if ret > 0 {
        var kl, vl := |key|, |value|;
        if kl + vl > MAX {
          return;
        }
        var rec := MakeRecord(key, value);
        var addr := |file|;
        file := file + rec;
        Insert(key, index, addr, 0, true);
      }
    }

    /** `get(db, key)`: `None` stands for the NULL it returns. */
    method Get(key: seq<byte>) returns (v: Option<seq<byte>>)
      requires Valid() && NoNul(key) && GetSpec(Abs(), key).Defined?
      modifies path, addrs
      ensures Valid() && GetSpec(old(Abs()), key) == Defined(Got(Abs(), v))
    {
      ghost var st := Abs();
      var ret, index := Search(Normalize(key));
      v := Lookup(st, key, Found(Abs(), ret, index), ret, path[index], file);
    }

    /** `delete(db, key)`. */
    method Delete(key: seq<byte>)
      requires Valid() && NoNul(key) && DeleteSpec(Abs(), key).Defined?
      modifies this, path, addrs
      ensures Valid() && DeleteSpec(old(Abs()), key) == Defined(Abs())
    {
      ghost var st := Abs();
      var ret, index := Search(Normalize(key));
      if ret == 0 {
        DeleteFound(st, key, Found(Abs(), ret, index));
        file := Tombstone(file, path[index], IndexKey(key));
      }
    }

    /** One pass of the loop of `search`: scan `path[index]`; a leaf or the
        depth bound ends the search, an internal node loads the child. */
    method Step(k: seq<byte>, index: nat) returns (done: bool, ret: nat, next: nat)
      requires Valid() && |k| == HASH && index <= DEPTH
      requires Descend(Abs(), k, index).Defined?
      modifies path, addrs
      ensures Valid() && next <= DEPTH
      ensures done ==> Descend(old(Abs()), k, index) == Defined(Found(Abs(), ret, next))
      ensures !done ==> next == index + 1 && Descend(Abs(), k, next) == Descend(old(Abs()), k, index)
    {
      var addr;
      done, ret, next, addr := Visit(Abs(), k, index, path[index], file);
      if !done {
        Load(next, addr);
      }
    }

    /** `_insert(db, key, index, addr, rptr, isleaf)` for the C string key. */
    method Insert(key: seq<byte>, index: nat, addr: nat, rptr: nat, leaf: bool)
      requires Valid() && index <= DEPTH && NoNul(key)
      modifies this, path
      ensures Valid() && Abs() == InsertSpec(old(Abs()), key, index, addr, rptr, leaf)
      decreases index, 1
    {
      var k := IndexKey(key);
      IndexKeyNoNul(key);
      var node := PlaceInto(path[index], k, addr, rptr, leaf);
      SetRow(index, node);
      if node[LAST] != 0 {
        NodeSplit(index, leaf);
      }
      file := WriteAt(file, addrs[index], path[index]);
    }

    /** `node_split(db, index, isleaf)`. */
    method NodeSplit(index: nat, leaf: bool)
      requires Valid() && index <= DEPTH
      modifies this, path
      ensures Valid() && Abs() == SplitSpec(old(Abs()), index, leaf)
      decreases index, 0
    {
      ghost var st := Abs();
      var node := path[index];
      var lnode := LeftCopy(node);
      var rnode := RightNode(node, leaf);
      var raddr := |file|;
      file := file + rnode;
      ToBig(lnode, SPLIT, raddr);
      LeftLinked(node, raddr, lnode[..]);
      // the separator buffer: slot 49's key and the terminating zero
      var key := node[SPLIT + LONG..SPLIT + SLOT] + [0];
      CStrNul(Separator(node));
      SetRow(index, lnode[..]);
      SplitSteps(st, index, leaf, node, raddr, Abs());
      if index > 0 {
        Insert(CStr(key), index - 1, addrs[index], raddr, false);
      } else {
        var r := RootNode(addrs[0], key, raddr);
        NewRootTerminated(addrs[0], Separator(node), key, raddr);
        var at := |file|;
        file := file + r;
        root := at;
      }
    }

    /** `memcpy(db->path[index], ...)`: row index of the cache takes node. */
    method SetRow(index: nat, node: seq<byte>)
      requires Valid() && index <= DEPTH && |node| == WIDTH
      modifies path
      ensures Valid() && Abs() == old(Abs()).(path := old(Abs()).path[index := node])
    {
      path[index] := node;
    }

    /** `path[level]` and `node_addrs[level]` take the node read at addr. */
    method Load(level: nat, addr: nat)
      requires Valid() && level <= DEPTH && addr + WIDTH <= |file|
      modifies path, addrs
      ensures Valid()
      ensures Abs() == ReadNode(old(Abs()), level, addr)
    {
      path[level] := file[addr..addr + WIDTH];
      addrs[level] := addr;
    }
  }

  /** The part of `get` after the search: nothing unless the key is live,
      else the value of the record the first matching slot names. */
  method Lookup(ghost st: State, key: seq<byte>, ghost f: Found, ret: nat, node: seq<byte>, file: seq<byte>)
    returns (v: Option<seq<byte>>)
    requires Wf(st) && NoNul(key) && SearchSpec(st, Normalize(key)) == Defined(f) && GetSpec(st, key).Defined?
    requires ret == f.ret && node == f.st.path[f.index] && file == f.st.file
    ensures GetSpec(st, key) == Defined(Got(f.st, v))
  {
    v := None;
    if ret == 0 {
      var k := IndexKey(key);
      var u := FindSlot(node, k);
      if u < ORDER {
        var at := FromBig(node[PtrOff(u)..PtrOff(u) + LONG]);
        GetFound(st, key, f, node, k, u, at);
        v := ReadAt(file, at);
      }
    }
  }

  /** The loop of `delete`: from the first key slot on, every match writes
      0 over the exists byte its pointer names. */
  method Tombstone(file: seq<byte>, node: seq<byte>, k: seq<byte>) returns (r: seq<byte>)
    requires |node| == WIDTH && |k| == HASH && DelLoop(file, node, k, KeyOff(0)).Defined?
    ensures DelLoop(file, node, k, KeyOff(0)) == Defined(r)
  {
    r := file;
    var i := KeyOff(0);
    while i < WIDTH
      invariant LONG <= i && DelLoop(r, node, k, i) == DelLoop(file, node, k, KeyOff(0))
      decreases WIDTH - i
    {
      if Strncmp(node[i..], k, HASH) == 0 {
        i := i - LONG;
        var at := FromBig(node[i..i + LONG]);
        r := WriteAt(r, at, [0]);
      }
      i := i + SLOT;
    }
  }

  /** The loop of `get`: the first slot whose key equals k, or `_ORDER`. */
  method FindSlot(node: seq<byte>, k: seq<byte>) returns (u: nat)
    requires |node| == WIDTH && |k| == HASH
    ensures u == FirstMatch(node, k, 0)
  {
    u := 0;
    while u < ORDER
      invariant u <= ORDER && FirstMatch(node, k, u) == FirstMatch(node, k, 0)
      decreases ORDER - u
    {
      var i := KeyOff(u);
      if Strncmp(node[i..i + HASH], k, HASH) == 0 {
        return;
      }
      u := u + 1;
    }
  }

  /** The reads of `get` at a record: the exists byte, then the two
      length-prefixed strings. */
  method ReadAt(file: seq<byte>, at: nat) returns (v: Option<seq<byte>>)
    requires ReadRecord(file, at).Defined?
    ensures ReadRecord(file, at) == Defined(v)
  {
    var flag := file[at];
    if flag == 0 {
      return None;
    }
    var kl := FromBig(file[at + 1..at + 1 + LONG]);
    var vat := at + 1 + LONG + kl;
    var vl := FromBig(file[vat..vat + LONG]);
    v := Some(file[vat + LONG..vat + LONG + vl]);
  }

  /** `search` at a leaf: 0 when slot s holds the key and its record's
      exists byte is set, 1 otherwise. */
  method VisitLeaf(ghost st: State, k: seq<byte>, index: nat, node: seq<byte>, file: seq<byte>,
                   ghost s: nat, i: nat, hit: bool) returns (ret: nat)
    requires Wf(st) && |k| == HASH && index <= DEPTH
    requires node == st.path[index] && file == st.file && IsLeaf(node)
    requires Descend(st, k, index).Defined? && s == Scan(node, k, 0) < ORDER && i == KeyOff(s)
    requires hit == (Strncmp(SlotKey(node, s), k, HASH) == 0)
    ensures Descend(st, k, index) == Defined(Found(st, ret, index))
  {
    SlotSlices(node, s, i);
    if hit {
      var at := FromBig(node[i - LONG..i]);
      DescendLeafHit(st, k, index, s, at);
      ret := if file[at] == 0 then 1 else 0;
    } else {
      DescendLeafMiss(st, k, index, s);
      ret := 1;
    }
  }

  /** The body of `search`'s scan of one node: the return value at a leaf
      or at the depth bound, otherwise the child's level and address. */
  method Visit(ghost st: State, k: seq<byte>, index: nat, node: seq<byte>, file: seq<byte>)
    returns (done: bool, ret: nat, next: nat, addr: nat)
    requires Wf(st) && |k| == HASH && index <= DEPTH
    requires node == st.path[index] && file == st.file
    requires Descend(st, k, index).Defined?
    ensures next <= DEPTH
    ensures done ==> Descend(st, k, index) == Defined(Found(st, ret, next))
    ensures !done ==>
      && next == index + 1 && addr + WIDTH <= |file|
      && Descend(st, k, index) ==
           Descend(ReadNode(st, next, addr), k, next)
  {
    var i := ScanNode(node, k);
    ghost var s := Scan(node, k, 0);
    DescendScans(st, k, index);
    SlotSlices(node, s, i);
    next, addr := index, 0;
    var hit := Strncmp(node[i..i + HASH], k, HASH) == 0;
    if node[0] != 0 {
      done := true;
      ret := VisitLeaf(st, k, index, node, file, s, i, hit);
      return;
    }
    if index >= DEPTH {
      DescendBound(st, k, index, s);
      done, ret, next := true, MINUS_ONE, 0;
      return;
    }
    if hit {
      addr := FromBig(node[i + HASH..i + HASH + LONG]);
    } else {
      addr := FromBig(node[i - LONG..i]);
    }
    DescendChild(st, k, index, s, addr);
    done, ret, next := false, 0, index + 1;
  }
}
