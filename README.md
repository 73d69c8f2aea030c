# tree.c B-tree store in Dafny

This project models the storage engine of `tree.c`, a key/value store kept
in one file. The file holds fixed-width B-tree nodes and an append-only heap
of value records.

- **Nodes.** A node is 4068 bytes. Byte 0 is the leaf flag. Then come 99
  slots of 41 bytes, each an 8-byte big-endian pointer and a 33-byte key.
  A trailing 8-byte pointer ends the node.
- **Keys.** Keys are padded with `'a'` to 33 bytes and compared with
  `strncmp` over 33 bytes.
- **Value records.** A record is `1 | to_big(k_len) | key | to_big(v_len) | value`.
  Delete overwrites its first byte with a 0 tombstone.

The model is laid out in layers:

- `codec.dfy` (`Codec`): `to_big` / `from_big` as the functions `Encode` /
  `Decode`, the loops `ToBig` / `FromBig` proved against them, and both
  round trips.
- `keys.dfy` (`Keys`): key padding (`Normalize`, `IndexKey`), C strings
  (`CStr`, `Strncpy`), the `strncmp` of the code, and the facts about it:
  equality, antisymmetry, transitivity, lexicographic order, and ascending
  key sequences.
- `layout.dfy` (`Layout`): slot offsets and the slot view of a node (`SlotKey`,
  `SlotPtr`, `KeysOf`, `PtrsOf`, `SortedWith`). It also holds the
  left-to-right scan `Scan` shared by `_insert`, `search` and `get`.
- `node.dfy` (`Node`): the in-node placement step of `_insert` (`Place`),
  the split test, and the halves `node_split` builds (`SplitLeft`,
  `SplitRight`, `Separator`, `NewRoot`).
- `node_facts.dfy`, `split_facts.dfy`: what placement and splitting do to
  the slots. Each case leaves the other bytes alone. Ascending keys stay
  ascending, and the pointers move with their keys.
- `node_ops.dfy` (`NodeOps`): the byte loops of `_insert` and `node_split`
  on arrays (cursor scan, copy loops, `to_big` / `strncpy` into a buffer).
  Each is proved equal to the function it implements.
- `engine.dfy` (`Engine`): `struct db` as a value `State`: the file bytes,
  the root address, and the `path` / `node_addrs` caches. Each routine is a
  function on it: `SearchSpec`, `InsertSpec`, `SplitSpec`, `PutSpec`,
  `GetSpec`, `DeleteSpec` and `InitSpec`. A routine returns `Undefined`
  where the C code would read bytes that are not in the file, or has no
  answer.
- `engine_facts.dfy` (`EngineFacts`): facts about those functions. Search
  keeps the caches in step with the file. Insertion leaves the bytes
  outside the cached nodes alone. A record put appends can be read back,
  and a tombstone reads as nothing. Put is a no-op on a live key. Search
  ends at a leaf under internal nodes, or returns -1 only after
  `_DEPTH` + 1 internal nodes (`SearchEnds`).
- `db.dfy` (`Tree`): the class `Db`. Its fields are the file and the root
  address, which the methods reassign, and the arrays `path` and
  `node_addrs`, which they update row by row. `Init`, `Search`, `Insert`,
  `NodeSplit`, `Put`, `Get` and `Delete` are proved to leave exactly the
  state the `Engine` function gives.
- `properties.dfy` (`Properties`): end-to-end properties of a tree that is
  a single root leaf. A new file is such a tree, and every put into a leaf
  with fewer than 98 keys keeps it one. A put is then read back by get,
  and a deleted key reads as absent.
- `split_tree.dfy` (`SplitTree`): what `get` returns, against a reference
  definition. `LeafValue` is the value a sorted leaf holds for a key, and
  `TwoLevelValue` the value of the leaf on the key's side of a root
  holding one separator. On a one-leaf tree, and on the two-level tree
  (`TwoLevel`) that the first root split leaves, `get` returns exactly
  that value. A put that splits the full root leaf leaves such a tree.
  The new key then reads back as the value put. Every other key keeps the
  value it had, as it also does after a put that does not split.

Two details of the descent in `search` are easy to misread:

- At an internal node, an exact key match descends through the pointer
  *after* the key (tree.c:241-242).
- Descending from level `_DEPTH` is not a failure. `search` returns the
  uint64 -1 with index 0 (tree.c:237-240, 256-259). `put` then treats the
  key as absent and inserts into row 0 of `path`.

## Model

| member | source | states |
|---|---|---|
| Codec.ToBig | tree.c:84-89 | the 8 bytes at the offset become `Encode(v)`, byte i being `(v >> (56-8i)) & 0xff`; every other byte of the buffer is unchanged |
| Codec.FromBig | tree.c:91-98 | the accumulated value is `Decode(buf)`, is below 2^64, and encodes back to `buf` |
| Codec.DecodeEncode | tree.c:84-98 | `from_big(to_big(v)) == v` for every uint64 v |
| Codec.EncodeDecode | tree.c:84-98 | `to_big(from_big(b)) == b` for every 8-byte b |
| Codec.DecodeEncodeSuffix | tree.c:84-98 | the last k bytes of `to_big(v)` decode to v mod 2^(8k) |
| Codec.DecodeInjective | tree.c:91-98 | two byte strings of equal length that decode to the same value are equal |
| Codec.DecodeIsU64 | tree.c:91-98 | eight decoded bytes give a value below 2^64 |
| Codec.EncodeHighByte | tree.c:84-89 | a value below 2^56 is encoded with a zero first byte |
| Keys.CStr | tree.c:143 | the C string of a buffer is a NUL-free prefix followed by a NUL or by the end |
| Keys.NormalizeShort | tree.c:143-148 | a key shorter than 33 bytes keeps its bytes and is padded with 0x61 up to 33 bytes |
| Keys.NormalizeLong | tree.c:143-148 | a key of 33 bytes or more is unchanged, and its index key is its first 33 bytes |
| Keys.NormalizeIdempotent | tree.c:206-211 | padding an already padded key changes nothing, so `get` padding before `search` pads again is harmless |
| Keys.IndexKeyNoNul | tree.c:143-148 | padding a C string gives a key without a NUL byte |
| Keys.PaddingCollision | tree.c:143-148 | a short key and the same key with an extra trailing 'a' have the same index key |
| Keys.TruncationCollision | tree.c:163 | keys of 33 bytes or more that agree on their first 33 bytes have the same index key, so they collide in the tree |
| Keys.StrncmpZero | tree.c:163 | against a NUL-free key, `strncmp` returns 0 exactly when the first n bytes agree |
| Keys.StrncmpIsLex | tree.c:170 | the sign of `strncmp` is the lexicographic order of the first n bytes, in both directions |
| Keys.StrncmpAntisym | tree.c:170 | swapping the arguments flips the sign of `strncmp` and keeps 0 |
| Keys.StrncmpTrans | tree.c:170 | `strncmp` order is transitive |
| Keys.AppendAscending | tree.c:152-161 | appending a key greater than all keys keeps a key sequence ascending |
| Keys.InsertAscending | tree.c:170-192 | inserting a key after the smaller keys and before a greater one keeps the sequence ascending |
| Keys.AscendingDistinct | tree.c:163 | an ascending key sequence holds each key at most once |
| Keys.StrncpyAt | tree.c:156 | byte t of `strncpy(src, n)` is src's byte inside its C string, else 0 |
| Keys.StrncpyNoNul | tree.c:294-296 | `strncpy` of a NUL-free string of exactly n bytes copies it unchanged |
| Keys.CStrNul | tree.c:118-120 | a separator buffer followed by its terminating 0 holds the same C string |
| Layout.ConstantsAgree | tree.c:34-37 | slot width is 33 + 8, `_WIDTH` follows its formula, the split offset is 41 * 49 + 1, the split test byte is `_WIDTH` - 41 |
| Layout.ScanStops | tree.c:151-193 | the scan passes only used slots with a smaller key and stops at an unused slot or one whose key is not smaller |
| Layout.ScanIs | tree.c:151-193 | the scan result is the first slot that stops it (or 99), characterised independently of the recursion |
| Layout.ScanSorted | tree.c:223-269 | in a node with n ascending keys the scan never passes slot n, so `search` always returns at a sorted node |
| Layout.ScanSortedBounds | tree.c:163-170 | in a sorted node every key before the stop is smaller than k and the key at the stop is not |
| Layout.ScanSortedSpec | tree.c:224 | in a sorted node k is one of the keys exactly when the scan stops at a slot holding k |
| Layout.SlotSlices | tree.c:153-159 | cursor i at a key: i-8 addresses the slot's pointer, i+33 the next slot's pointer |
| NodeFacts.NeedsSplitIsLastSlot | tree.c:194 | the split test holds exactly when the last key slot is used |
| NodeFacts.PlaceEmpty | tree.c:152-161 | at an unused slot: bytes before it kept, its pointer is addr and its key k, an internal node's next pointer is rptr, the bytes after unchanged |
| NodeFacts.PlaceMatch | tree.c:163-169 | at an exact match a leaf changes only that slot's pointer to addr and an internal node is unchanged |
| NodeFacts.PlaceShift | tree.c:170-192 | at the first greater key: bytes before kept, (addr, k[, rptr]) inserted, every later key and pointer moved one slot right |
| NodeFacts.PlaceNoStop | tree.c:151-193 | when no slot stops the scan the node is unchanged |
| NodeFacts.FillSorted | tree.c:152-161 | filling the first unused slot of a sorted node with a greater key gives keys `ks + [k]`, still ascending |
| NodeFacts.FillPtrs | tree.c:152-161 | filling slot n adds addr (and rptr for an internal node) after the first n pointers |
| NodeFacts.RepointSorted | tree.c:163-168 | repointing slot s keeps the keys and replaces only pointer s |
| NodeFacts.ShiftSorted | tree.c:170-192 | the shift inserts k at slot s: keys become `Inserted(ks, s, k)`, still ascending |
| NodeFacts.ShiftPtrs | tree.c:170-192 | the shift inserts addr before pointer s in a leaf, and (addr, rptr) in place of pointer s in an internal node |
| NodeFacts.PlacePtrs | tree.c:150-192 | the pointer sequence after placement in each of the four cases (present or absent key, leaf or internal) |
| NodeFacts.PlaceSorted | tree.c:150-192 | placement keeps a node sorted: a present key leaves the keys unchanged, an absent one inserts it at the scan position |
| NodeFacts.PlaceFinds | tree.c:150-192 | after placement k sits at the scan position and a new scan for k stops there |
| SplitFacts.SplitLeftSlots | tree.c:104-109 | the left half keeps the flag and slots 0..48, holds the right node's address in slot 49's pointer, and has no used slot after |
| SplitFacts.SplitLeftSorted | tree.c:109-117 | the left half of a full sorted node holds its first 49 keys in order, pointers 0..48 and then the right address |
| SplitFacts.SplitRightLeafSlots | tree.c:110-112 | a leaf's right half is a leaf holding slots 49..98 and the trailing pointer, moved to the front |
| SplitFacts.SplitRightInnerSlots | tree.c:110-113 | an internal node's right half is internal and holds slots 50..98 and the trailing pointer |
| SplitFacts.SplitRightLeafSorted | tree.c:110-112 | a leaf's right half holds keys 49..98 in order with their pointers |
| SplitFacts.SplitRightInnerSorted | tree.c:110-113 | an internal right half holds keys 50..98 and pointers 50..99, so key 49 is in neither half |
| SplitFacts.SeparatorBetween | tree.c:118-120 | the separator is key 49: greater than every left key, smaller than every later key |
| SplitFacts.NewRootShape | tree.c:126-131 | the new root is internal with the single key sep between pointers to the old root and the right node |
| NodeOps.Memcpy | tree.c:109-113 | the n destination bytes become the source bytes, the rest unchanged |
| NodeOps.StrncpyTo | tree.c:156 | the n bytes at the offset become `Strncpy(src, n)`, the rest unchanged |
| NodeOps.FillAt | tree.c:152-161 | the buffer becomes the node with the entry overwritten at the pointer offset |
| NodeOps.FillInto | tree.c:152-161 | as `FillAt`, on a copy of the node |
| NodeOps.Repoint | tree.c:164-167 | the node with only the 8 pointer bytes replaced by `to_big(addr)` |
| NodeOps.ShiftInto | tree.c:171-190 | the copy loops give the node with the entry inserted and the rest shifted one slot right |
| NodeOps.ScanNode | tree.c:150-151 | the cursor loop stops at the key offset of `Scan`, or past the last slot |
| NodeOps.PlaceInto | tree.c:149-193 | the node after placement is `Place(node, k, addr, rptr, leaf)` |
| NodeOps.LeftCopy | tree.c:104-109 | `lnode` holds the first 2010 bytes of the node, zeros after |
| NodeOps.LeftLinked | tree.c:117 | writing the right address at offset 2010 gives `SplitLeft` |
| NodeOps.RightNode | tree.c:105-113 | `rnode` is `SplitRight(node, isleaf)` |
| NodeOps.RootNode | tree.c:126-131 | the new root is `NewRoot(old root, separator, right)` |
| Engine.WriteAt | tree.c:199-200 | `fseeko` + `fwrite`: the written range holds the data, every other byte is kept, the file grows only when the data reaches past the end |
| Engine.Record | tree.c:288 | a record is k + v + 17 bytes long |
| Engine.Descend | tree.c:221-269 | a defined search keeps the file and root, and returns 0, 1 or -1 with an index at most 10 |
| Engine.InsertSpec | tree.c:140-201 | `_insert` keeps `node_addrs` and never shrinks the file |
| Engine.SplitSpec | tree.c:100-138 | `node_split` keeps `node_addrs` and appends at least one node |
| EngineFacts.RecordRoundTrip | tree.c:288-346 | `get` reading the record `put` built, wherever it sits in the file, returns the value |
| EngineFacts.TombstoneRead | tree.c:332-335 | after the 0 of `delete`, reading the record gives nothing |
| EngineFacts.DescendCached | tree.c:241-267 | after a descent every cached row from the root down holds the node stored at its address |
| EngineFacts.SearchCached | tree.c:216-220 | after `search` every row of `path` up to `*r_index` equals the file at `node_addrs` |
| EngineFacts.DescendEnds | tree.c:221-269 | a descent stops at a leaf, at or below its starting level and under internal nodes only, or returns the uint64 -1 with index 0 exactly when all `_DEPTH` + 1 rows it filled hold internal nodes; the rows above the start are kept |
| EngineFacts.SearchEnds | tree.c:203-270 | `search` either reports, in `*r_index`, the level of the leaf it stopped at, every row above it an internal node, or returns -1 with index 0 exactly when the 11 rows it filled all hold internal nodes |
| EngineFacts.CachedStep | tree.c:243-246 | loading a child into the next row keeps the cache in step |
| EngineFacts.InitSearchAbsent | tree.c:386-391 | in a new file every key is absent: `search` returns 1 at index 0 |
| EngineFacts.WriteAtKeeps | tree.c:199-200 | a write outside a byte range leaves that range unchanged |
| EngineFacts.InsertKeeps | tree.c:140-201 | `_insert` changes no file bytes outside the nodes cached on its path, including its splits |
| EngineFacts.SplitKeeps | tree.c:100-138 | the same for `node_split` |
| EngineFacts.NewRootTerminated | tree.c:118-130 | the new root built from the NUL-terminated 34-byte separator buffer is the one built from the 33 separator bytes |
| EngineFacts.PutNoop | tree.c:284-287 | for a live key or for k + v over `_MAX`, put leaves the file and the root unchanged |
| EngineFacts.RecordAt | tree.c:328-346 | a record in the file at e reads back as its value |
| EngineFacts.InsertedRecord | tree.c:297-300 | the record put appends is not overwritten by the `_insert` that follows |
| EngineFacts.PutAppendsRecord | tree.c:284-300 | after a put that acts, the old end of the file holds the record and reads back as the value |
| EngineFacts.NotLiveNoop | tree.c:322-351 | when `search` does not report the key live, get returns nothing and delete leaves the file |
| Tree.MakeRecord | tree.c:285-296 | the record buffer is `1 | to_big(k_len) | key | to_big(v_len) | value` |
| Tree.Db.Init | tree.c:378-393 | a new file holds the root address 8 and an empty leaf; an existing file is used as it is; the caches are empty |
| Tree.Db.Search | tree.c:203-270 | the return value, `*r_index` and the caches are those of `SearchSpec` |
| Tree.Db.Walk | tree.c:221-269 | the `goto search` loop reaches the result of `Descend` from row 0 |
| Tree.Db.Step | tree.c:222-268 | one pass either ends the search with the result of `Descend` or loads the child, leaving the same remaining descent |
| Tree.Db.Load | tree.c:243-246 | row `level` of `path` and `node_addrs` take the node at addr |
| Tree.Db.SetRow | tree.c:121 | row `index` of `path` takes the node |
| Tree.Db.Insert | tree.c:140-201 | the new state is `InsertSpec` |
| Tree.Db.NodeSplit | tree.c:100-138 | the new state is `SplitSpec` |
| Tree.Db.Put | tree.c:272-310 | the new state is `PutSpec` |
| Tree.Db.Get | tree.c:312-352 | for a NUL-free key, the returned value and the caches are those of `GetSpec` |
| Tree.Db.Delete | tree.c:354-376 | for a NUL-free key, the new state is `DeleteSpec` |
| Tree.Visit | tree.c:222-268 | one scan of a node: the result at a leaf or at the depth bound, otherwise the child's level and address with the same remaining descent |
| Tree.VisitLeaf | tree.c:224-255 | the return value at a leaf is the one `Descend` gives |
| Tree.FindSlot | tree.c:323-325 | the loop of `get` stops at the first slot whose key matches |
| Tree.ReadAt | tree.c:328-346 | the read of `get` at a record address gives `ReadRecord` |
| Tree.Lookup | tree.c:322-351 | the value get returns after the search is the one `GetSpec` gives |
| Tree.Tombstone | tree.c:365-374 | the loop of `delete` leaves the file `DelLoop` gives |
| Properties.EmptyLeafShape | tree.c:382-384 | the node `db_init` writes is a leaf with no used slot and zero pointers |
| Properties.InitOneLeaf | tree.c:386-391 | a new file is a one-leaf tree with no keys |
| Properties.LeafSearch | tree.c:203-255 | on a one-leaf tree search returns 0 exactly when the key is present and its record is live, else 1, at index 0 |
| Properties.LeafScanHit | tree.c:223-224 | in a sorted leaf the stopping slot matches k exactly when k is one of its keys |
| Properties.PlaceHighZero | tree.c:150-192 | placing a record address below 2^56 keeps the high byte of every pointer of a leaf zero |
| Properties.LeafPut | tree.c:284-300 | a put that acts on a one-leaf tree appends the record and writes the placed leaf back over the root |
| Properties.PlacePtrBounds | tree.c:150-192 | if every used pointer of a sorted leaf and the new address lie in [lo, hi), so do the used pointers after placement |
| Properties.PutKeepsOneLeaf | tree.c:272-310 | put keeps a one-leaf tree one leaf, with one more key exactly when the key was new and put acted |
| Properties.IndexKeyNormalize | tree.c:316-321 | the index key of the padded key is the index key of the key |
| Properties.FirstMatchSorted | tree.c:323-325 | in a sorted leaf the rescan of `get` finds the slot where `search` stopped |
| Properties.PlaceLeafPtr | tree.c:152-167 | after placement in a leaf, the key's slot points to the new record |
| Properties.LeafGet | tree.c:312-346 | on a one-leaf tree, get of a present key with a live record returns that record's value |
| Properties.PutThenGet | tree.c:272-352 | after a put that acts on a one-leaf tree (absent or tombstoned key), get returns the value just put |
| Properties.DelMisaligned | tree.c:366-373 | after a match the misaligned loop of `delete` compares from a zero byte and writes nothing more |
| Properties.DelAligned | tree.c:366-373 | the loop of `delete` tombstones exactly the record of the slot holding the key |
| Properties.DelPass | tree.c:367 | the loop of `delete` steps over a slot holding another key |
| Properties.DelHit | tree.c:367-372 | at the slot holding the key, the loop of `delete` writes 0 at its record and goes on eight bytes early |
| Properties.DeleteThenGet | tree.c:354-376 | delete on a one-leaf tree tombstones a live key's record and changes nothing otherwise; the tree stays one leaf; get then returns nothing |
| Properties.DeleteNotLive | tree.c:364 | delete of a key that is not live leaves the file unchanged and get returns nothing |
| Properties.DeleteLive | tree.c:364-374 | delete of a live key writes the tombstone at its record, after which get returns nothing |
| SplitTree.ScanAtKey | tree.c:223-224 | in a sorted node the scan for the key of slot j stops at slot j |
| SplitTree.LeafDescend | tree.c:222-255 | at a good leaf on any level, search returns 0 at that level exactly when the leaf holds the key with a live record, and 1 otherwise |
| SplitTree.GetAtLeaf | tree.c:322-351 | after a search that ends at a good leaf, get is defined exactly when the leaf's value for the key is, and then returns that value |
| SplitTree.LeafGetValue | tree.c:312-352 | on a one-leaf tree, get is defined exactly when the root leaf's `LeafValue` for the key is, and returns it |
| SplitTree.ReadRecordFrame | tree.c:328-346 | a readable record reads the same in a longer file that keeps every byte from some point at or before the record |
| SplitTree.PlaceKeepsValue | tree.c:150-192 | placing k in a sorted leaf leaves the value of every other key unchanged |
| SplitTree.RepointKeepsValue | tree.c:163-168 | repointing the slot of k leaves the value of every other key unchanged |
| SplitTree.InsertKeepsValue | tree.c:170-192 | inserting k with the shift leaves the value of every other key unchanged |
| SplitTree.InsertMoves | tree.c:170-192 | the key of slot j stays in the node after the shift, at slot j or j + 1 with its pointer, so it keeps its value |
| SplitTree.TopChild | tree.c:223-268 | in an internal node with one key, search takes pointer 0 exactly when that key is greater than k, so an equal key goes right |
| SplitTree.DescendTwo | tree.c:216-255 | from a root with one key, search loads the leaf on k's side into row 1 and reports the key live exactly when that leaf holds it live |
| SplitTree.TwoLevelSearch | tree.c:203-270 | search on a two-level tree ends at index 1 in the leaf on k's side, returning 0 exactly when that leaf holds the key live |
| SplitTree.TwoLevelGet | tree.c:312-352 | on a two-level tree, get is defined exactly when `TwoLevelValue` for the key is, and returns it |
| SplitTree.SplitNodes | tree.c:114-136 | after a root split the left half sits at the old root, the right half at the old end of the file and the new root after it, and the bytes in between are kept |
| SplitTree.SplitLeftGood | tree.c:104-117 | the left half of a full sorted leaf is a good leaf with 49 keys, all below the separator |
| SplitTree.SplitRightGood | tree.c:110-116 | the right half of a full sorted leaf is a good leaf with 50 keys, none below the separator |
| SplitTree.SplitTwoLevel | tree.c:100-138 | a root split leaves a two-level tree whose root holds the separator between the old root's address and the right half's |
| SplitTree.BelowSeparator | tree.c:118-120 | a key of the full leaf below the separator is one of its first 49 keys |
| SplitTree.LeftHalfValue | tree.c:104-117 | a key below the separator has in the left half the value it has in the full leaf |
| SplitTree.LeftHalfAt | tree.c:104-109 | each of the first 49 keys stays in the left half with its pointer, so it keeps its value |
| SplitTree.RightHalfValue | tree.c:110-116 | a key not below the separator has in the right half the value it has in the full leaf |
| SplitTree.RightHalfAt | tree.c:110-112 | each key from slot 49 on moves with its pointer to the right half, so it keeps its value |
| SplitTree.SplitValue | tree.c:100-138 | the two-level tree a root split leaves holds, for every key, the full leaf's value |
| SplitTree.RootSplitPut | tree.c:272-310 | put of a new key into a one-leaf tree with 98 keys: search returns 1, and the new file and root are those of the root split of the placed leaf |
| SplitTree.SplitPlaced | tree.c:150-194 | the placed leaf is sorted with 99 keys, so it splits, and its pointers lie inside the file with the record |
| SplitTree.SplitPutValue | tree.c:272-310 | after a put that splits the root leaf, the tree has two levels and holds the value put under the new key |
| SplitTree.SplitPutOthers | tree.c:272-310 | after that put every other key whose value could be read keeps that value |
| SplitTree.SplitPutThenGet | tree.c:272-352 | get after a put that splits the root leaf returns the value put |
| SplitTree.SplitPutKeeps | tree.c:272-352 | get of any other key after a put that splits the root leaf returns what it returned before |
| SplitTree.RewrittenValue | tree.c:150-200 | a leaf rewritten with k placed holds every other key's earlier readable value, in a file that keeps the bytes after the leaf |
| SplitTree.RewriteFrame | tree.c:199-200 | writing a node back over the root after an append keeps every byte after the node |
| SplitTree.FramedValue | tree.c:328-346 | a leaf whose pointers all lie after a point gives the same readable values in a file that keeps the bytes from that point and grows |
| SplitTree.PutKeepsOthers | tree.c:272-352 | get of any other key after a put into a one-leaf tree that does not split returns what it returned before |

## Left out

- Locking: `db_lock` / `db_unlock` and the `LOCK` blocks are compiled out of the source.
- C stdio: `fopen` / `fclose` / `fflush` are not modelled. `fseeko` + `fread` / `fwrite` are reads and writes of the file bytes. A write past the end zero-fills the gap. `Db.Init` takes the outcome of `fopen(name, "rb+")` as a parameter.
- Short reads: a read past the end of the file makes the operation `Undefined`.
- The demo `main` and `random_str` (which uses `rand()`) are not part of this model.
- The root address is an abstract field. The C code writes and reads it in host byte order with raw `fwrite` / `fread` (tree.c:136, 217, 390). The model keeps 8 zero bytes for that header, so every other offset matches the file.
- Memory: `malloc` leaks and the missing NUL terminators of padded keys and returned values are not modelled. The model's padded key is 33 bytes. `strlen` on the unterminated padded key is taken to see at least 33 bytes (`Keys.NormalizeIdempotent`).
- Offsets are unbounded naturals. `to_big` keeps the low 64 bits of its argument, as the C code does.
- `path` and `node_addrs` get one row more than the C arrays. The depth check precedes `++index`, so the C code can write `path[_DEPTH]`.
- A `strncmp` that would read past the 4068-byte node buffer makes the operation `Undefined`.
- A node whose 99 slots all hold smaller keys gives `search` no return value; that search is `Undefined`.
- Tree.Db.Search: requires `SearchSpec` to be defined, i.e. none of the `Undefined` cases above occur during the call.
- Tree.Db.Put: requires `PutSpec` to be defined, for the same reason.
- Tree.Db.Get: requires `GetSpec` to be defined, for the same reason.
- Tree.Db.Delete: requires `DeleteSpec` to be defined, for the same reason.
- Keys and values are C strings given without their terminating NUL. `put`, `get` and `delete` therefore take keys with no 0 byte, and `strlen` of such a key is its length.
- Split correctness is not claimed globally. The C code writes the right node's address at offset 2010 also for internal nodes (tree.c:117), which drops the child between keys 48 and 49. The model reproduces this (`SplitLeft`); `SplitFacts` states the shape of both halves.
- Properties.PutThenGet: proved for a tree that is a single root leaf that does not split (fewer than 98 keys, file below 2^56 bytes). `SplitTree.SplitPutThenGet` covers the put that splits the root leaf.
- SplitTree.SplitPutThenGet: proved for the first split only, that of a root leaf with 98 keys. Puts into a tree of two or more levels, and splits of internal nodes, are not given end-to-end properties.
- Properties.PutKeepsOneLeaf: proved only for a root leaf with fewer than 98 keys, i.e. one the put does not split.
- SplitTree.SplitPutKeeps: only for keys whose `get` was defined before the put. A record read that ran past the end of the old file may read differently once the file grows.
- SplitTree.PutKeepsOthers: the same restriction to keys whose `get` was defined before; the put must not split the leaf.
