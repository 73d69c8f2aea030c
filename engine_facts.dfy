/**
  Properties of the engine functions that hold for any file: the record
  layout reads back, `search` keeps its caches in step with the file,
  inserting only writes back nodes it read or appends, and the cases in
  which `put`, `get` and `delete` change nothing.
 */
module EngineFacts {
  import opened Codec
  import opened Keys
  import opened Layout
  import opened Node
  import opened Engine

  // ---------------------------------------------------------------------
  // Records

  /** The record `put` appends reads back, through `get`'s reads, as the
      value it was made from, wherever it sits in the file. */
  lemma RecordRoundTrip(pre: seq<byte>, key: seq<byte>, value: seq<byte>, post: seq<byte>)
    requires |key| < TWO_64 && |value| < TWO_64
    ensures ReadRecord(pre + Record(key, value) + post, |pre|) == Defined(Some(value))
  {
    var file := pre + Record(key, value) + post;
    var at := |pre|;
    var vat := at + 1 + LONG + |key|;
    assert file[at] == 1;
    assert file[at + 1..at + 1 + LONG] == Encode(|key|);
    DecodeEncode(|key|);
    assert file[vat..vat + LONG] == Encode(|value|);
    DecodeEncode(|value|);
    assert file[vat + LONG..vat + LONG + |value|] == value;
  }

  /** A record whose exists byte was overwritten with 0 reads as absent. */
  lemma TombstoneRead(file: seq<byte>, at: nat)
    ensures ReadRecord(WriteAt(file, at, [0]), at) == Defined(None)
  {
    assert WriteAt(file, at, [0])[at..at + 1] == [0];
  }

  // ---------------------------------------------------------------------
  // search

  /** Levels 0..index of the cache hold nodes read from the file:
      `path[i]` is the node at `node_addrs[i]`. */
  ghost predicate Cached(st: State, index: nat)
    requires Wf(st) && index <= DEPTH
  {
    forall i :: 0 <= i <= index ==>
      st.addrs[i] + WIDTH <= |st.file| && st.path[i] == st.file[st.addrs[i]..st.addrs[i] + WIDTH]
  }

  /** The descent only reads: every level it fills, including the one it
      reports, holds the node stored at the address it records. */
  lemma {:induction false} DescendCached(st: State, k: seq<byte>, index: nat)
    requires Wf(st) && |k| == HASH && index <= DEPTH && Cached(st, index)
    ensures var r := Descend(st, k, index); r.Defined? ==> Cached(r.value.st, r.value.index)
    decreases DEPTH - index
  {
    if Descend(st, k, index).Defined? {
      var node := st.path[index];
      DescendScans(st, k, index);
      var s := Scan(node, k, 0);
      var hit := Strncmp(SlotKey(node, s), k, HASH) == 0;
      if IsLeaf(node) {
        if hit {
          DescendLeafHit(st, k, index, s, Decode(SlotPtr(node, s)));
        } else {
          DescendLeafMiss(st, k, index, s);
        }
      } else if index == DEPTH {
        DescendBound(st, k, index, s);
        CachedRoot(st, index);
      } else {
        var addr := ChildAddr(node, k, s);
        DescendChild(st, k, index, s, addr);
        CachedStep(st, index, addr);
        DescendCached(ReadNode(st, index + 1, addr), k, index + 1);
      }
    }
  }

  /** A cache in step up to some level is in step at the root level. */
  lemma CachedRoot(st: State, index: nat)
    requires Wf(st) && index <= DEPTH && Cached(st, index)
    ensures Cached(st, 0)
  {
  }

  /** Reading the node at addr into level index + 1 extends the cache. */
  lemma CachedStep(st: State, index: nat, addr: nat)
    requires Wf(st) && index < DEPTH && Cached(st, index) && addr + WIDTH <= |st.file|
    ensures Cached(ReadNode(st, index + 1, addr), index + 1)
  {
  }

  /** After `search` every level up to `*r_index` is in step with the file. */
  lemma SearchCached(st: State, key: seq<byte>)
    requires Wf(st)
    ensures var r := SearchSpec(st, key); r.Defined? ==> Cached(r.value.st, r.value.index)
  {
    if st.root + WIDTH <= |st.file| {
      var st' := ReadNode(st, 0, st.root);
      assert Cached(st', 0);
      DescendCached(st', IndexKey(key), 0);
    }
  }

  /** Levels 0..index - 1 of the cache hold internal nodes. */
  ghost predicate InternalBelow(st: State, index: nat)
    requires Wf(st) && index <= DEPTH + 1
  {
    forall i :: 0 <= i < index ==> !IsLeaf(st.path[i])
  }

  /** What a descent that started at level `index` leaves: the levels
      above the start as they were, and either a leaf at the reported
      index under internal nodes, or the uint64 -1 at index 0 with every
      level internal. */
  ghost predicate EndsWell(st: State, index: nat, f: Found)
    requires Wf(st) && Wf(f.st) && index <= DEPTH && f.index <= DEPTH
  {
    && (forall i :: 0 <= i < index ==> f.st.path[i] == st.path[i])
    && (f.ret == MINUS_ONE <==> f.index == 0 && InternalBelow(f.st, DEPTH + 1))
    && (f.ret != MINUS_ONE ==> index <= f.index && IsLeaf(f.st.path[f.index]) && InternalBelow(f.st, f.index))
  }

  /** Where the descent stops: either at a leaf, with the internal nodes it
      passed through above it, or, after `_DEPTH` + 1 internal nodes, with
      the uint64 -1 at index 0.  The levels above the start are kept. */
  lemma {:induction false} DescendEnds(st: State, k: seq<byte>, index: nat)
    requires Wf(st) && |k| == HASH && index <= DEPTH && InternalBelow(st, index)
    ensures var r := Descend(st, k, index); r.Defined? ==> EndsWell(st, index, r.value)
    decreases DEPTH - index, 1
  {
    if Descend(st, k, index).Defined? {
      var node := st.path[index];
      DescendScans(st, k, index);
      var s := Scan(node, k, 0);
      if IsLeaf(node) {
        if Strncmp(SlotKey(node, s), k, HASH) == 0 {
          DescendLeafHit(st, k, index, s, Decode(SlotPtr(node, s)));
        } else {
          DescendLeafMiss(st, k, index, s);
        }
        EndsAtLeaf(st, index, Descend(st, k, index).value);
      } else if index == DEPTH {
        DescendBound(st, k, index, s);
        EndsAtBound(st, index, Descend(st, k, index).value);
      } else {
        DescendEndsChild(st, k, index, s, ChildAddr(node, k, s));
      }
    }
  }

  /** The step of `DescendEnds` through an internal node below `_DEPTH`. */
  lemma {:induction false} DescendEndsChild(st: State, k: seq<byte>, index: nat, s: nat, addr: nat)
    requires Wf(st) && |k| == HASH && index < DEPTH && InternalBelow(st, index)
    requires s == Scan(st.path[index], k, 0) < ORDER && !IsLeaf(st.path[index])
    requires Descend(st, k, index).Defined? && addr == ChildAddr(st.path[index], k, s)
    ensures Descend(st, k, index).Defined? && EndsWell(st, index, Descend(st, k, index).value)
    decreases DEPTH - index, 0
  {
    DescendChild(st, k, index, s, addr);
    var st' := ReadNode(st, index + 1, addr);
    ReadNodeBelow(st, index, addr);
    DescendEnds(st', k, index + 1);
    var r := Descend(st', k, index + 1);
    EndsWellStep(st, st', index, r.value);
  }

  /** Reading a child into level index + 1 keeps the levels up to index,
      so an internal node at level index extends the internal levels. */
  lemma ReadNodeBelow(st: State, index: nat, addr: nat)
    requires Wf(st) && index < DEPTH && addr + WIDTH <= |st.file|
    requires InternalBelow(st, index) && !IsLeaf(st.path[index])
    ensures var st' := ReadNode(st, index + 1, addr);
      && (forall i :: 0 <= i <= index ==> st'.path[i] == st.path[i])
      && InternalBelow(st', index + 1)
  {
  }

  /** A descent that stops at the leaf it started at ends well. */
  lemma EndsAtLeaf(st: State, index: nat, f: Found)
    requires Wf(st) && index <= DEPTH && InternalBelow(st, index) && IsLeaf(st.path[index])
    requires f.st == st && f.index == index && f.ret in {0, 1}
    ensures EndsWell(st, index, f)
  {
  }

  /** A descent that meets an internal node at level `_DEPTH` ends well. */
  lemma EndsAtBound(st: State, index: nat, f: Found)
    requires Wf(st) && index == DEPTH && InternalBelow(st, index) && !IsLeaf(st.path[index])
    requires f == Found(st, MINUS_ONE, 0)
    ensures EndsWell(st, index, f)
  {
  }

  /** A descent from the next level ends well for this level too when
      this level holds an internal node and only the next one was read. */
  lemma EndsWellStep(st: State, st': State, index: nat, f: Found)
    requires Wf(st) && Wf(st') && Wf(f.st) && index < DEPTH && f.index <= DEPTH
    requires forall i :: 0 <= i <= index ==> st'.path[i] == st.path[i]
    requires EndsWell(st', index + 1, f)
    ensures EndsWell(st, index, f)
  {
  }

  /** `search` ends at a leaf, reporting its level in `*r_index` after the
      internal nodes above it, or returns the uint64 -1 with index 0 exactly
      when the `_DEPTH` + 1 levels it filled all hold internal nodes. */
  lemma SearchEnds(st: State, key: seq<byte>)
    requires Wf(st)
    ensures var r := SearchSpec(st, key);
      r.Defined? ==>
        && (r.value.ret == MINUS_ONE <==> r.value.index == 0 && InternalBelow(r.value.st, DEPTH + 1))
        && (r.value.ret != MINUS_ONE ==>
              IsLeaf(r.value.st.path[r.value.index]) && InternalBelow(r.value.st, r.value.index))
  {
    if st.root + WIDTH <= |st.file| {
      DescendEnds(ReadNode(st, 0, st.root), IndexKey(key), 0);
    }
  }

  /** A fresh database holds no key: `search` stops at slot 0 of the empty
      root leaf and reports the key absent at level 0. */
  lemma InitSearchAbsent(key: seq<byte>)
    requires NoNul(key)
    ensures var r := SearchSpec(InitSpec(None), key); r.Defined? && r.value.ret == 1 && r.value.index == 0
  {
    var st := InitSpec(None);
    var node := st.file[LONG..LONG + WIDTH];
    assert node == EmptyLeaf();
    var k := IndexKey(key);
    IndexKeyNoNul(key);
    assert !Filled(node, 0);
    assert Scan(node, k, 0) == 0;
    assert SlotKey(node, 0)[0] == 0;
  }

  // ---------------------------------------------------------------------
  // What _insert and node_split write

  /** A write outside [lo, hi) keeps those bytes. */
  lemma WriteAtKeeps(file: seq<byte>, off: nat, data: seq<byte>, lo: nat, hi: nat)
    requires lo <= hi <= |file| && (off + |data| <= lo || hi <= off)
    ensures WriteAt(file, off, data)[lo..hi] == file[lo..hi]
  {
    var r := WriteAt(file, off, data);
    assert forall j :: lo <= j < hi ==> r[j] == file[j];
  }

  /** Appending keeps the bytes before the old end. */
  lemma AppendKeeps(file: seq<byte>, data: seq<byte>, lo: nat, hi: nat)
    requires lo <= hi <= |file|
    ensures (file + data)[lo..hi] == file[lo..hi]
  {
  }

  /** Nodes of levels 0..index lie outside [lo, hi). */
  ghost predicate Clear(st: State, index: nat, lo: nat, hi: nat)
    requires Wf(st) && index <= DEPTH
  {
    forall i :: 0 <= i <= index ==> st.addrs[i] + WIDTH <= lo || hi <= st.addrs[i]
  }

  /** `_insert` at level index writes only the nodes of levels 0..index at
      their addresses and appends; any other range of the file is kept. */
  lemma {:induction false} InsertKeeps(st: State, key: seq<byte>, index: nat, addr: nat, rptr: nat, leaf: bool, lo: nat, hi: nat)
    requires Wf(st) && index <= DEPTH && NoNul(key) && lo <= hi <= |st.file| && Clear(st, index, lo, hi)
    ensures InsertSpec(st, key, index, addr, rptr, leaf).file[lo..hi] == st.file[lo..hi]
    decreases index, 1
  {
    var node := Place(st.path[index], IndexKey(key), addr, rptr, leaf);
    var st1 := st.(path := st.path[index := node]);
    var st2 := if NeedsSplit(node) then SplitSpec(st1, index, leaf) else st1;
    if NeedsSplit(node) {
      SplitKeeps(st1, index, leaf, lo, hi);
    }
    assert st2.file[lo..hi] == st.file[lo..hi];
    WriteAtKeeps(st2.file, st.addrs[index], st2.path[index], lo, hi);
  }

  lemma {:induction false} SplitKeeps(st: State, index: nat, leaf: bool, lo: nat, hi: nat)
    requires Wf(st) && index <= DEPTH && lo <= hi <= |st.file| && Clear(st, index, lo, hi)
    ensures SplitSpec(st, index, leaf).file[lo..hi] == st.file[lo..hi]
    decreases index, 0
  {
    var node := st.path[index];
    var raddr := |st.file|;
    var st1 := st.(file := st.file + SplitRight(node, leaf),
                   path := st.path[index := SplitLeft(node, raddr)]);
    AppendKeeps(st.file, SplitRight(node, leaf), lo, hi);
    if index > 0 {
      InsertKeeps(st1, CStr(Separator(node)), index - 1, st.addrs[index], raddr, false, lo, hi);
    } else {
      AppendKeeps(st1.file, NewRoot(st.addrs[0], Separator(node), raddr), lo, hi);
    }
  }

  /** `node_split` in two steps: the cut, which appends the right node and
      turns row index into the left node, then either the insertion of the
      separator into the parent or the new root. */
  lemma SplitSteps(st: State, index: nat, leaf: bool, node: seq<byte>, raddr: nat, st1: State)
    requires Wf(st) && index <= DEPTH && node == st.path[index] && raddr == |st.file|
    requires st1 == st.(file := st.file + SplitRight(node, leaf), path := st.path[index := SplitLeft(node, raddr)])
    ensures index > 0 ==>
      SplitSpec(st, index, leaf) == InsertSpec(st1, CStr(Separator(node)), index - 1, st.addrs[index], raddr, false)
    ensures index == 0 ==>
      SplitSpec(st, index, leaf) ==
        st1.(file := st1.file + NewRoot(st.addrs[0], Separator(node), raddr), root := |st1.file|)
  {
  }

  /** The separator buffer with its terminating zero gives the same root as
      the separator itself: `strncpy` stops at the zero. */
  lemma NewRootTerminated(left: nat, sep: seq<byte>, key: seq<byte>, right: nat)
    requires |sep| == HASH && key == sep + [0]
    ensures NewRoot(left, key, right) == NewRoot(left, sep, right)
  {
    CStrNul(sep);
    assert Strncpy(key, HASH) == Strncpy(sep, HASH);
  }

  // ---------------------------------------------------------------------
  // put

  /** A key `search` reports live, or a key and value longer than `_MAX`
      together: `put` leaves the file and the root as they were. */
  lemma PutNoop(st: State, key: seq<byte>, value: seq<byte>)
    requires Wf(st) && NoNul(key) && NoNul(value) && SearchSpec(st, key).Defined?
    requires SearchSpec(st, key).value.ret == 0 || |key| + |value| > MAX
    ensures PutSpec(st, key, value).Defined?
    ensures PutSpec(st, key, value).value.file == st.file
    ensures PutSpec(st, key, value).value.root == st.root
  {
  }

  /** When `put` acts, the state is the insertion of the record's address
      into the leaf `search` reported, after the record was appended. */
  lemma PutActs(st: State, key: seq<byte>, value: seq<byte>)
    requires Wf(st) && NoNul(key) && NoNul(value) && SearchSpec(st, key).Defined?
    requires SearchSpec(st, key).value.ret != 0 && |key| + |value| <= MAX
    ensures var f := SearchSpec(st, key).value;
      PutSpec(st, key, value) ==
        Defined(InsertSpec(f.st.(file := f.st.file + Record(key, value)), key, f.index, |st.file|, 0, true))
  {
  }

  /** `get`'s reads at e give back the value of the record stored there. */
  lemma RecordAt(file: seq<byte>, e: nat, hi: nat, rec: seq<byte>, key: seq<byte>, value: seq<byte>)
    requires |key| < TWO_64 && |value| < TWO_64 && rec == Record(key, value)
    requires hi == e + |rec| && hi <= |file| && file[e..hi] == rec
    ensures ReadRecord(file, e) == Defined(Some(value))
  {
    assert file == file[..e] + rec + file[hi..];
    RecordRoundTrip(file[..e], key, value, file[e + |rec|..]);
  }

  /** Levels read from the file lie before its end. */
  lemma CachedClear(st: State, index: nat, rec: seq<byte>, lo: nat, hi: nat)
    requires Wf(st) && index <= DEPTH && Cached(st, index) && lo == |st.file| && hi == lo + |rec|
    ensures Clear(st.(file := st.file + rec), index, lo, hi)
    ensures (st.file + rec)[lo..hi] == rec
  {
  }

  /** The insertion that follows the append keeps the record readable. */
  lemma InsertedRecord(f: Found, key: seq<byte>, value: seq<byte>, rec: seq<byte>, e: nat, hi: nat,
                       rptr: nat, leaf: bool, st': State)
    requires Wf(f.st) && f.index <= DEPTH && Cached(f.st, f.index) && NoNul(key) && |key| + |value| <= MAX
    requires e == |f.st.file| && rec == Record(key, value) && hi == e + |rec|
    requires st' == InsertSpec(f.st.(file := f.st.file + rec), key, f.index, e, rptr, leaf)
    ensures hi <= |st'.file| && st'.file[e..hi] == rec
    ensures ReadRecord(st'.file, e) == Defined(Some(value))
  {
    var st1 := f.st.(file := f.st.file + rec);
    CachedClear(f.st, f.index, rec, e, hi);
    InsertKeeps(st1, key, f.index, e, rptr, leaf, e, hi);
    RecordAt(st'.file, e, hi, rec, key, value);
  }

  /** When `put` acts, the record lies at the file's old end after the
      insertion has run, and `get`'s reads there give the value back. */
  lemma PutAppendsRecord(st: State, key: seq<byte>, value: seq<byte>, rec: seq<byte>, e: nat, hi: nat, st': State)
    requires Wf(st) && NoNul(key) && NoNul(value) && SearchSpec(st, key).Defined?
    requires SearchSpec(st, key).value.ret != 0 && |key| + |value| <= MAX
    requires rec == Record(key, value) && e == |st.file| && hi == e + |rec|
    requires PutSpec(st, key, value) == Defined(st')
    ensures hi <= |st'.file| && st'.file[e..hi] == rec
    ensures ReadRecord(st'.file, e) == Defined(Some(value))
  {
    SearchCached(st, key);
    PutActs(st, key, value);
    InsertedRecord(SearchSpec(st, key).value, key, value, rec, e, hi, 0, true, st');
  }

  // ---------------------------------------------------------------------
  // get and delete

  /** A key `search` does not report live: `get` returns nothing and
      `delete` leaves the file as it was. */
  lemma NotLiveNoop(st: State, key: seq<byte>)
    requires Wf(st) && NoNul(key) && SearchSpec(st, Normalize(key)).Defined? && SearchSpec(st, Normalize(key)).value.ret != 0
    ensures GetSpec(st, key).Defined? && GetSpec(st, key).value.value == None
    ensures DeleteSpec(st, key).Defined? && DeleteSpec(st, key).value.file == st.file
  {
  }

  /** A key `search` reports live and `get` finds at slot u: `get` returns
      what the reads at slot u's record give. */
  lemma GetFound(st: State, key: seq<byte>, f: Found, node: seq<byte>, k: seq<byte>, u: nat, at: nat)
    requires Wf(st) && NoNul(key) && SearchSpec(st, Normalize(key)) == Defined(f) && f.ret == 0
    requires node == f.st.path[f.index] && k == IndexKey(key)
    requires u == FirstMatch(node, k, 0) < ORDER && at == Decode(SlotPtr(node, u))
    requires GetSpec(st, key).Defined?
    ensures ReadRecord(f.st.file, at).Defined?
    ensures GetSpec(st, key) == Defined(Got(f.st, ReadRecord(f.st.file, at).value))
  {
  }

  /** A key `search` reports live: `delete` leaves the state of the search
      with the file its loop writes. */
  lemma DeleteFound(st: State, key: seq<byte>, f: Found)
    requires Wf(st) && NoNul(key) && SearchSpec(st, Normalize(key)) == Defined(f) && f.ret == 0
    requires DeleteSpec(st, key).Defined?
    ensures var d := DelLoop(f.st.file, f.st.path[f.index], IndexKey(key), KeyOff(0));
      d.Defined? && DeleteSpec(st, key) == Defined(f.st.(file := d.value))
  {
  }

  // ---------------------------------------------------------------------
  // One level of the descent, case by case

  /** `search` loads the root before it descends. */
  lemma SearchStart(st: State, key: seq<byte>)
    requires Wf(st) && SearchSpec(st, key).Defined?
    ensures st.root + WIDTH <= |st.file|
    ensures SearchSpec(st, key) ==
      Descend(ReadNode(st, 0, st.root), IndexKey(key), 0)
  {
  }

  // Each lemma below unfolds `Descend` once, in one of its branches.

  lemma DescendLeafMiss(st: State, k: seq<byte>, index: nat, s: nat)
    requires Wf(st) && |k| == HASH && index <= DEPTH && s == Scan(st.path[index], k, 0) < ORDER
    requires IsLeaf(st.path[index]) && Strncmp(SlotKey(st.path[index], s), k, HASH) != 0
    ensures Descend(st, k, index) == Defined(Found(st, 1, index))
  {
  }

  lemma DescendLeafHit(st: State, k: seq<byte>, index: nat, s: nat, at: nat)
    requires Wf(st) && |k| == HASH && index <= DEPTH && s == Scan(st.path[index], k, 0) < ORDER
    requires IsLeaf(st.path[index]) && Strncmp(SlotKey(st.path[index], s), k, HASH) == 0
    requires at == Decode(SlotPtr(st.path[index], s))
    ensures Descend(st, k, index).Defined? <==> at < |st.file|
    ensures at < |st.file| ==>
      Descend(st, k, index) == Defined(Found(st, if st.file[at] == 0 then 1 else 0, index))
  {
  }

  lemma DescendBound(st: State, k: seq<byte>, index: nat, s: nat)
    requires Wf(st) && |k| == HASH && index == DEPTH && s == Scan(st.path[index], k, 0) < ORDER
    requires !IsLeaf(st.path[index])
    ensures Descend(st, k, index) == Defined(Found(st, MINUS_ONE, 0))
  {
  }

  lemma DescendChild(st: State, k: seq<byte>, index: nat, s: nat, addr: nat)
    requires Wf(st) && |k| == HASH && index < DEPTH && s == Scan(st.path[index], k, 0) < ORDER
    requires !IsLeaf(st.path[index]) && Descend(st, k, index).Defined?
    requires addr == ChildAddr(st.path[index], k, s)
    ensures addr + WIDTH <= |st.file|
    ensures Descend(st, k, index) == Descend(ReadNode(st, index + 1, addr), k, index + 1)
  {
  }

  lemma DescendScans(st: State, k: seq<byte>, index: nat)
    requires Wf(st) && |k| == HASH && index <= DEPTH && Descend(st, k, index).Defined?
    ensures Scan(st.path[index], k, 0) < ORDER
  {
  }
}
