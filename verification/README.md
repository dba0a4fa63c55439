# hat-util in Dafny

A model of the utility core of hat-util. hat-util is a small library written in three languages, and the model follows each part in the form its source takes.

- **TypeScript.**
  - A JSON Patch engine: the operations of RFC 6902 over pointers of RFC 6901 (`src_js/patch.ts`).
  - Path-based copy-on-write editors of JSON values (`src_js/json.ts`).
  - The helpers those depend on (`src_js/misc.ts`).
  - Python-style array slicing (`src_js/iter.ts`).
  - Virtual-DOM node helpers (`src_js/vnode.ts`).
- **C.**
  - A byte ring buffer (`src_c/hat/ring.c`).
  - A chained hash table with FNV-1a hashing and resizing (`src_c/hat/ht.c`).
  - A linear buffer with a position cursor (`src_c/hat/buff.h`).
- **Python.**
  - A byte-chunk queue, `BytesBuffer` (`src_py/hat/util/bytes.py`, with an older copy in `src_py/hat/util.py`).
  - A cron parser, matcher and next-time search (`src_py/hat/util/cron.py`).
  - `first` (`src_py/hat/util/first.py`, also in `src_py/hat/util.py`).
  - The SQLite timestamp adapter and converter (`src_py/hat/util/sqlite3.py`).

## Modules

There is one Dafny module per source file, plus shared modules:
- `Wrappers`: `Option` and `Result`, standing for `null`/`None` returns and thrown exceptions.
- `Strings`: splitting, joining and decimal digits.
- `Calendar`: the proleptic Gregorian calendar of Python's `datetime`.
- `JsonValue`: the `JData` document and the type predicates of `misc.ts`.
- `CMem`: bytes and `memcpy`.

The modules and their styles:
- **Pure code is functions and lemmas.** This covers the patch engine, the recursive editors of `json.ts`, the cron parser and matcher, `first`, and the sqlite3 converter.
- **Code that updates state step by step is imperative Dafny.**
  - `Ring.Ring`, `Buff.Buff`, `HashTable.Table` and `BytesBuffer.BytesBuffer` are classes whose methods change their fields.
    - The ring's storage and the hash table's slots are arrays.
    - The linked chains of `ht.c` are sequences of entries held in the slot array.
  - The loops of `equals`, `clone`, `zip`, `fromPairs`, `pick`, `json.ts` `_get`, `iter.ts` `_islice`, `getFlatVNodeChildren`, `hash_function`, `hat_ht_iter_next`, `resize` and `cron.next` are methods.
  - Each loop method is proved against a specification function, and the properties the source promises are proved about that function.

### Where the code departs from a standard

The model follows the code in each case.
- `_add` accepts array indices 0 to length-1 only. Section 4.1 of RFC 6902 also allows the index equal to the length, and `test_jest/patch.test.ts:36-40` expects it to work (`AddAtLengthRejected`).
- `strictParseInt` accepts a sign and leading zeros. Section 4 of RFC 6901 forbids both in array indices (`LooseIndexAccepted`).
- The move guard is a strict prefix test, so moving a value onto its own path is accepted (`MoveToSamePath`).

## Model

| member | source | states |
|---|---|---|
| JsonValue.KindPredicatesExclusive | src_js/misc.ts:11-90 | On every JSON value exactly one of isNil, isBoolean, isNumber, isString, isArray, isObject holds, and isInteger implies isNumber |
| Misc.StrictParseInt | src_js/misc.ts:97-101 | A value is produced exactly for an optional sign followed by one or more digits; a leading '-' gives a non-positive value, otherwise non-negative |
| Misc.StrictParseFormatInt | src_js/misc.ts:97-101 | Every integer's canonical decimal text parses back to that integer |
| Misc.StrictParseIntLoose | src_js/misc.ts:97-101 | "+1", "-0" and "01" are accepted, as 1, 0 and 1 |
| Misc.Equals | src_js/misc.ts:197-230 | The deep comparison loops return true exactly when the two values are structurally equal, so they are reflexive and symmetric and never equate values of two kinds |
| Misc.Clone | src_js/misc.ts:120-130 | The copy built by the loops is structurally equal to the original |
| Misc.ZipLongest | src_js/misc.ts:138-146 | The generator yields max(length) pairs, with matching elements paired and undefined past the end of the shorter array |
| Misc.Zip | src_js/misc.ts:143-144 | The loop as written yields exactly the ZipLongest pairs |
| Misc.ZipShortest | src_js/misc.ts:132-137 | The documented zip: min(length) pairs of matching elements |
| Misc.ZipLongestDisagreesWithTest | src_js/misc.ts:143 | zip([1], "abc") yields 3 pairs where the documented zip yields 1 |
| Misc.ZipAgreeOnEqualLength | src_js/misc.ts:143 | On arrays of equal length, the only use inside equals, both zips give the same pairs |
| Misc.ToPairs | src_js/misc.ts:151-155 | The pairs list every entry of the object exactly once |
| Misc.FromPairsSpec | src_js/misc.ts:160-167 | The built object has exactly the keys of the pairs |
| Misc.FromPairs | src_js/misc.ts:160-167 | The assigning loop builds the left fold FromPairsSpec |
| Misc.FromPairsLastWins | src_js/misc.ts:160-167 | For a key given several times, the last pair's value is the one kept |
| Misc.FromPairsOfEntries | src_js/misc.ts:151-167 | fromPairs of any entry listing of an object gives the object back |
| Misc.Pick | src_js/misc.ts:278-287 | The result holds exactly the listed keys the object has, with the object's values |
| Misc.Repeat | src_js/misc.ts:235-238 | max(n, 0) copies of the value |
| Misc.SliceIndex | src_js/misc.ts:470-474 | Array.prototype.slice's position for an index lies within [0, length] |
| Misc.Insert | src_js/misc.ts:470-474 | One element longer, the value at the slice position, the elements before it kept, the ones after it shifted up by one |
| Misc.Merge | src_js/misc.ts:365-368 | The keys of both objects, the second object's value winning on shared keys |
| Misc.FindEqual | src_js/misc.ts:387-404 | find(equals(val)) finds something exactly when val is an element, and what it finds equals val |
| Misc.UnionAsWritten | src_js/misc.ts:446-455 | The reduce keeps x as a prefix and appends at most the elements of y |
| Misc.Union | src_js/misc.ts:446-455 | The documented union keeps x as a prefix, and its elements are exactly those of x and y |
| Misc.UnionAsWrittenDuplicatesFalsy | src_js/misc.ts:451 | union([0], [0]) as written is [0, 0], whereas the documented union gives [0] |
| Misc.UnionAgreesOnTruthy | src_js/misc.ts:451 | When every element of y is truthy, the union as written equals the documented one |
| Misc.InsertByKey | src_js/misc.ts:262-273 | Inserting into a sequence sorted by the key keeps it sorted and adds exactly that element |
| Misc.SortBy | src_js/misc.ts:262-273 | The result is sorted by fn and is a permutation of the input. The sort is stable: for every key, the elements with that key appear in the same order as in the input |
| Misc.InsertByKeyStable | src_js/misc.ts:262-273 | Inserting an element puts it after every element with the same key, so equal keys keep their order |
| JsonPatch.ReplacePair | src_js/patch.ts:106 | replaceAll of a two-character pattern never lengthens the string |
| JsonPatch.UnescapeEscape | src_js/patch.ts:105-107 | Unescaping undoes the escaping of section 3 of RFC 6901 for every segment |
| JsonPatch.UnescapeOrder | src_js/patch.ts:105-107 | Because ~1 is replaced before ~0, "~01" reads as "~1", "~1" as "/" and "~0" as "~" |
| JsonPatch.UnescapeAll | src_js/patch.ts:115 | Every segment is unescaped, in place |
| JsonPatch.ParsePointer | src_js/patch.ts:109-116 | "" is the empty pointer; any other pointer parses exactly when it starts with '/', has one token per '/', and the only error is "invalid pointer" |
| JsonPatch.ParseFormatPointer | src_js/patch.ts:109-116 | Every list of reference tokens is parsed back from its pointer text |
| JsonPatch.Slice | src_js/patch.ts:118-123 | The slice islice is meant to yield: the elements from start to min(stop, length), in order |
| JsonPatch.IsliceNeverFinishes | src_js/patch.ts:121 | On any non-empty range the generator as written is still running after any number of iterations |
| JsonPatch.SliceEnds | src_js/patch.ts:138 | The slices taken by the editors are prefixes and suffixes |
| JsonPatch.SliceAround | src_js/patch.ts:138 | The slices before and after an index put the array back together |
| JsonPatch.PutItem | src_js/patch.ts:151-155 | Same length, the new child at the index, every other element unchanged |
| JsonPatch.InsertItem | src_js/patch.ts:138 | The value inserted at the index with later elements shifted up |
| JsonPatch.RemoveItem | src_js/patch.ts:179 | The element at the index dropped, with later elements shifted down |
| JsonPatch.PutItemAgain | src_js/patch.ts:151-155 | Putting back the element already there changes nothing, and a second put overrides the first |
| JsonPatch.InsertRemoved | src_js/patch.ts:138 | Inserting a removed element at its index restores the array |
| JsonPatch.ArrayIndex | src_js/patch.ts:135-137 | An index is accepted exactly when strictParseInt gives a number from 0 to length-1; otherwise "invalid array index" |
| JsonPatch.Get | src_js/patch.ts:258-278 | _get fails only with an invalid array index, an invalid object key or an invalid data type |
| JsonPatch.AddLast | src_js/patch.ts:131-145 | The last-token add succeeds exactly on an object, or on an array with '-' or an index from 0 to length-1. '-' appends; an index inserts the value and shifts later elements up; an object gets the key set and keeps every other entry |
| JsonPatch.RemoveLast | src_js/patch.ts:174-191 | The last-token remove succeeds exactly where _get of that token does. It drops the element and shifts later ones down, or deletes the key and keeps every other entry |
| JsonPatch.ReplaceLast | src_js/patch.ts:220-235 | The last-token replace succeeds exactly where _get of that token does. The value is then at that slot, and the container keeps its size, keys and every other slot |
| JsonPatch.Add | src_js/patch.ts:125-166 | The value is found at the pointer afterwards unless the last token is '-'. At any depth, the container the pointer's parent addresses is what AddLast makes of it. Every container above it keeps its size or keys and every slot off the path |
| JsonPatch.Remove | src_js/patch.ts:168-212 | Succeeds exactly where _get does. At any depth, the container the pointer's parent addresses is what RemoveLast makes of it, so the element or key is dropped there. Every container above it keeps its size or keys and every slot off the path |
| JsonPatch.Replace | src_js/patch.ts:214-256 | Succeeds exactly where _get does, and the value is then found at the pointer. At any depth, the container the pointer's parent addresses is what ReplaceLast makes of it. Every container above it keeps its size or keys and every slot off the path |
| JsonPatch.EmptyPath | src_js/patch.ts:126-127 | The empty pointer addresses the whole document: get returns it, add and replace return the value, remove returns null |
| JsonPatch.GetConcat | src_js/patch.ts:258-278 | Resolving p + q is resolving p, then q inside the result, errors propagating |
| JsonPatch.AddSucceedsIff | src_js/patch.ts:125-166 | add succeeds exactly when the pointer is empty, or its parent exists and is an object, or it is an array whose last token is '-' or an existing index |
| JsonPatch.RemoveThenAddRestores | src_js/patch.ts:125-212 | Removing the value at a pointer and adding it back restores the document, for an object key or an array element other than the last |
| JsonPatch.ReplaceIdempotent | src_js/patch.ts:214-256 | Replacing twice with the same value is replacing once |
| JsonPatch.PatchConcat | src_js/patch.ts:48-55 | Applying d1 + d2 is applying d2 to the result of d1; an error in d1 is the error of the whole |
| JsonPatch.PatchSnoc | src_js/patch.ts:53-54 | The last operation is applied to what the earlier ones produced |
| JsonPatch.PatchUnits | src_js/patch.ts:48-55 | The empty patch is the identity, and a one-operation patch is that operation |
| JsonPatch.MoveIntoChildFails | src_js/patch.ts:75-76 | Moving a value below its own pointer fails with "path can't be child of from" whatever the document |
| JsonPatch.MoveToSamePath | src_js/patch.ts:75 | The guard is strict, so a move onto its own pointer is accepted and leaves a re-insertable document as it was |
| JsonPatch.MoveOperation | src_js/patch.ts:72-79 | A move that passes the guard is add(path, get(from), remove(from)), and the moved value is then found at path |
| JsonPatch.CopyOperation | src_js/patch.ts:81-86 | A copy succeeds exactly when from resolves and add accepts path, and the value is then found at path |
| JsonPatch.TestOperation | src_js/patch.ts:88-94 | test returns the document unchanged exactly when the value at the pointer equals the expected one, and fails with "invalid value" when the value differs |
| JsonPatch.AddAtLengthRejected | src_js/patch.ts:136 | Adding at index 0 of an empty array fails with "invalid array index", while '-' appends |
| JsonPatch.LooseIndexAccepted | src_js/patch.ts:265-268 | "+1" and "01" both address index 1 |
| JsonEdit.NestingIsSpliced | src_js/misc.ts:179-181 | A nested list inside a path is spliced in place, so nesting does not change what a path addresses |
| JsonEdit.NestedPathExample | test_jest/json.test.ts:19 | The nested path [['a', [[]], 3, ['b']]] flattens to a, 3, b |
| JsonEdit.Step | src_js/json.ts:22-28 | A step succeeds exactly when a number meets an array or a string meets an object |
| JsonEdit.Get | src_js/json.ts:16-33 | The loop computes GetSpec of the flattened path |
| JsonEdit.GetBasics | src_js/json.ts:20-30 | The empty path returns the value; a segment of the wrong kind, or a null on the way, gives null |
| JsonEdit.Assign | src_js/json.ts:53-54 | Writing at an index keeps the other elements, grows the array past its end, and reads the gap as null |
| JsonEdit.ChangeFlat | src_js/json.ts:48-63 | A number step yields an array and a string step an object, and the top key set gains only the segment's key. At every level where the old value had a container of the segment's kind, every element or key off the path keeps its value |
| JsonEdit.GetSpecConcat | src_js/json.ts:16-33 | Getting along p + q is getting along q from what p gives |
| JsonEdit.GetChangeFlat | src_js/json.ts:48-63 | Below a prefix p without negative indices, change along p + q is change along q of what p addressed, so a change at any depth only rebuilds the containers along the path |
| JsonEdit.GetChange | src_js/json.ts:48-63 | The value at the path afterwards is fn of the value get read there before |
| JsonEdit.GetSetFlat | src_js/json.ts:48-80 | What set stores is what get reads back, whatever the document, when no index on the path is negative |
| JsonEdit.GetSet | src_js/json.ts:74-80 | get(p, set(p, v, x)) == v for every path without a negative index |
| JsonEdit.Splice1 | src_js/json.ts:102 | splice(i, 1) removes exactly the element at the slice position of i, or nothing past the end |
| JsonEdit.OmitFlat | src_js/json.ts:94-118 | A container of the wrong kind is returned unchanged. For one segment, a string deletes the key and a number splices the element out. At every level above the last segment, every element or key off the path keeps its value |
| JsonEdit.OmitAtParent | src_js/json.ts:94-118 | At any depth, the container the path without its last segment addresses afterwards is the one-segment omit of the container it addressed before: the key is deleted or the element spliced out there |
| JsonEdit.OmitElsewhere | src_js/json.ts:94-118 | A path that leaves the omitted path at a different key of some object reads the same value before and after the omit |
| JsonEdit.Omit | src_js/json.ts:90-123 | The empty path gives null. Otherwise the last segment's key or element is removed from the container the rest of the path addresses, at any depth, and every container above it keeps its other slots |
| JsonEdit.OmitUndoesSetOfNewKey | src_js/json.ts:74-123 | Omitting a key that set has just added gives the object back |
| JsonEdit.Move | src_js/json.ts:133-140 | When the source path ends in a key, that key is gone from its object afterwards. When the two paths part at different keys of one object and the destination has no negative index, the destination holds the value the source held |
| JsonEdit.MoveRenamesKey | src_js/json.ts:133-140 | Moving between two different keys of an object renames the entry |
| Iter.NormStop | src_js/iter.ts:14-18 | A missing or too large stop becomes the length, and a negative one counts from the end |
| Iter.Islice | src_js/iter.ts:4-21 | The normalising and counting loop yields IsliceSpec |
| Iter.IsliceShape | src_js/iter.ts:19-20 | The output has max(0, stop' - start') elements, which are the elements of x from start' on, in order |
| Iter.IsliceClamps | test_jest/iter.test.ts:18 | islice(-50, 50, x) is x for every x of at most 50 elements |
| Iter.IsliceExamples | test_jest/iter.test.ts:7-16 | The eight cases at lines 7-16 of the test file: empty input, full and partial ranges, negative bounds, and empty or crossed ranges. The case at line 18 is IsliceClamps |
| VNode.WithDataIffNotWithout | src_js/vnode.ts:13-19 | A node has data exactly when it is not data-less |
| VNode.GetVNodeChildren | src_js/vnode.ts:25-27 | The node is its tag (and its data object, when it has one) followed by the children |
| VNode.FlattenAppend | src_js/vnode.ts:44-54 | Flattening distributes over concatenation |
| VNode.FlattenLeaves | src_js/vnode.ts:44-54 | Flattening keeps only strings and nodes |
| VNode.FlattenOfLeaves | src_js/vnode.ts:44-54 | A list of strings and nodes is its own flattening |
| VNode.FlattenIdempotent | src_js/vnode.ts:44-54 | Flattening twice is flattening once |
| VNode.GetFlatVNodeChildren | src_js/vnode.ts:29-42 | The pushing loop yields the flattening of the node's children |
| VNode.FlattenStep | src_js/vnode.ts:32-39 | Each child adds itself when it is a string or a node, and its own flattening when it is a list |
| VNode.ChangeVNodeData | src_js/vnode.ts:56-69 | The tag is kept. With new data the node is [tag, data, ...children]. With null, a data-less node is returned as it is and a node with data loses index 1 |
| VNode.ChangeVNodeDataDropKeepsChildren | src_js/vnode.ts:61-66 | Dropping the data leaves a data-less node with the same children |
| VNode.ChangeVNodeChildren | src_js/vnode.ts:73-80 | The tag and the data object stay, and the children are exactly what the callback returns |
| VNode.FlattenExample | test_jest/vnode.test.ts:46-58 | The example tree's flat children are its first node, "a2" and its second node |
| Ring.Wrap | src_c/hat/ring.c:18 | The modulo of an index below twice the buffer size |
| Ring.Distance | src_c/hat/ring.c:46-54 | The stored length is below size + 1, and going that far from head reaches tail |
| Ring.Ring.constructor | src_c/hat/ring.c:28-40 | A new ring of the given size is empty |
| Ring.Ring.Len | src_c/hat/ring.c:46-54 | At most size bytes are stored, and going len bytes forward from head reaches tail |
| Ring.Ring.MoveHeadBy | src_c/hat/ring.c:16-19 | head advances modulo size + 1 and tail stays |
| Ring.Ring.MoveTailBy | src_c/hat/ring.c:22-25 | tail advances modulo size + 1 and head stays |
| Ring.Ring.MoveHead | src_c/hat/ring.c:60-63 | The oldest min(len, length) bytes are dropped |
| Ring.Ring.MoveTail | src_c/hat/ring.c:66-69 | min(len, size - length) free bytes join the contents, as they are in the buffer |
| Ring.Ring.Read | src_c/hat/ring.c:72-94 | Returns min(data_len, length). It copies the oldest bytes in order, leaves the rest of the destination alone and drops them from the ring. An empty ring gives 0 and stays as it was |
| Ring.Ring.CopyOut | src_c/hat/ring.c:83-89 | The bytes after head land at the start of the destination, with one memcpy or two when they go round |
| Ring.Ring.Write | src_c/hat/ring.c:97-119 | Returns min(data_len, size - length) and appends that many bytes of the source; a full ring takes 0 and stays as it was |
| Ring.Ring.CopyIn | src_c/hat/ring.c:108-114 | The source bytes land in the positions after tail, going round, and every other byte is kept |
| Ring.Ring.Used | src_c/hat/ring.c:122-137 | Two regions, the second at the buffer's start, whose lengths sum to the length and whose bytes are the contents in order |
| Ring.Ring.Unused | src_c/hat/ring.c:140-155 | Two regions, the second at the buffer's start, whose lengths sum to size - length and whose bytes are the free bytes after tail |
| CMem.Memcpy | src_c/hat/buff.h:62 | The n bytes land at the destination offset, and every other destination byte is kept |
| Buff.Buff.constructor | src_c/hat/buff.h:28-35 | A buffer over the given storage, size and position |
| Buff.Buff.Available | src_c/hat/buff.h:45-47 | size - pos when the position is before the end, 0 otherwise |
| Buff.Buff.Write | src_c/hat/buff.h:58-65 | Succeeds exactly when the data fits. It then copies the bytes at pos and advances pos, changes no byte outside them, and on failure changes nothing. pos <= size is kept |
| Buff.Buff.Read | src_c/hat/buff.h:76-82 | Returns the old position exactly when size bytes are available and advances pos by size; otherwise None and pos stays. pos <= size is kept |
| HashTable.XorByte | src_c/hat/ht.c:28 | The xor changes only the low byte of the hash |
| HashTable.FnvStep | src_c/hat/ht.c:28-29 | One round stays below 2^64 |
| HashTable.Fnv | src_c/hat/ht.c:23-33 | The hash is a 64-bit word |
| HashTable.HashFunction | src_c/hat/ht.c:23-33 | The byte loop computes FNV-1a of the key |
| HashTable.FnvOfA | src_c/hat/ht.c:23-33 | The published 64-bit FNV-1a vector: "a" hashes to 0xaf63dc4c8601ec8c |
| HashTable.Home | src_c/hat/ht.c:112 | A key's slot is below the capacity |
| HashTable.NewCap | src_c/hat/ht.c:36-44 | The table is kept exactly below four elements or while the count is strictly between a quarter of 80% of cap - 1 and that 80%; a new capacity exceeds twice the count |
| HashTable.ResizeSettles | src_c/hat/ht.c:36-44 | Right after a resize the next check keeps the table |
| HashTable.Table.constructor | src_c/hat/ht.c:71-88 | A new table is empty with 11 slots |
| HashTable.Table.Count | src_c/hat/ht.c:106 | count is the number of stored keys and of elements across all chains |
| HashTable.Table.FindInChain | src_c/hat/ht.c:114-121 | The walk stops at the first element with the key, or at the chain's end when no element has it |
| HashTable.Table.Get | src_c/hat/ht.c:147-160 | The value stored for the key, or None when the key is absent |
| HashTable.Table.Set | src_c/hat/ht.c:109-144 | A present key gets the new value. A new key is added and counted when its allocation succeeds, and nothing changes when it fails. The placement invariant is kept |
| HashTable.Table.Pop | src_c/hat/ht.c:163-182 | Returns the value the key had, or None; the key is gone afterwards and count drops exactly when it was present |
| HashTable.Table.Del | src_c/hat/ht.c:185-203 | Succeeds exactly when the key was present; the key is gone afterwards and count drops exactly then |
| HashTable.Table.Resize | src_c/hat/ht.c:36-68 | The key-to-value map and count are kept. It fails only when a resize is due and the allocation fails, and moves to NewCap's capacity when it succeeds |
| HashTable.Rehash | src_c/hat/ht.c:53-61 | Relinking every element into a fresh slot array of the new capacity stores the same map |
| HashTable.RehashChain | src_c/hat/ht.c:54-60 | Relinking one old chain keeps the new slots well placed and moves exactly that slot's keys |
| HashTable.LinkStep | src_c/hat/ht.c:138-139 | Linking a new key at the end of its home chain stores the map with that key added |
| HashTable.LinkFrontStep | src_c/hat/ht.c:57-58 | Linking a new key at the front of its home chain stores the map with that key added |
| HashTable.UnlinkStep | src_c/hat/ht.c:170-174 | Unlinking a present key's element stores the map without it, one element shorter |
| HashTable.SetFoundStep | src_c/hat/ht.c:123-125 | Overwriting a present key's value in place stores the updated map |
| HashTable.Table.IterNext | src_c/hat/ht.c:206-218 | The next element is the rest of the chain, else the head of the next non-empty slot, else None |
| HashTable.Table.FirstFromIsHead | src_c/hat/ht.c:212-215 | The slot search finds the first position from that slot on |
| HashTable.Table.PositionsCover | src_c/hat/ht.c:206-218 | Every element at or after a slot has a position in the walk |
| HashTable.Table.PositionsCount | src_c/hat/ht.c:206-218 | There are as many positions as elements from that slot on |
| HashTable.Table.IterationWalks | src_c/hat/ht.c:206-218 | Starting from NULL, iter_next walks the positions in order and ends with None after the last |
| HashTable.Table.IterationVisitsAll | src_c/hat/ht.c:206-218 | The walk visits every element exactly once: count positions, pairwise distinct, covering all elements |
| BytesBuffer.BytesBuffer.constructor | src_py/hat/util/bytes.py:16-18 | A new buffer is empty (same code at src_py/hat/util.py:153-155) |
| BytesBuffer.BytesBuffer.Len | src_py/hat/util/bytes.py:20-21 | The stored length counter equals the total length of the chunks (src_py/hat/util.py:157-158) |
| BytesBuffer.BytesBuffer.Add | src_py/hat/util/bytes.py:23-29 | The contents become the old contents followed by the data; empty data changes nothing (src_py/hat/util.py:160-166) |
| BytesBuffer.BytesBuffer.Read | src_py/hat/util/bytes.py:31-80 | It returns the first n bytes, or all of them when n < 0 or n >= length, and what was returned followed by what remains is the old contents. read(0) returns b'' and changes nothing (src_py/hat/util.py:168-217) |
| BytesBuffer.TakeWhole | src_py/hat/util/bytes.py:52-54 | Moving a whole chunk into the result keeps the bytes in order |
| BytesBuffer.TakeSplit | src_py/hat/util/bytes.py:56-64 | Splitting the straddling chunk keeps the bytes in order and no chunk empty |
| BytesBuffer.JoinChunks | src_py/hat/util/bytes.py:66-80 | No chunk gives b'', one chunk comes back as it is, and more are copied in order: the result is their concatenation |
| BytesBuffer.BytesBuffer.Clear | src_py/hat/util/bytes.py:82-86 | Returns the old length and leaves the buffer empty (src_py/hat/util.py:219-223) |
| First.FirstIndex | src_py/hat/util/first.py:33 | The least index whose element satisfies fn, or None when no element does |
| First.First | src_py/hat/util/first.py:8-33 | The element at the least satisfying index, or the default when none satisfies fn (same code at src_py/hat/util.py:34-59) |
| First.FirstSound | src_py/hat/util/first.py:33 | The result is the default or an element of xs that satisfies fn |
| First.FirstOfAll | src_py/hat/util/first.py:9 | With the default predicate the result is the first element, or the default for an empty input |
| First.FirstCons | src_py/hat/util/first.py:33 | A failing first element is skipped and a passing one is the answer |
| First.FirstExamples | src_py/hat/util/first.py:25-26 | first(range(3)) == 0 and first(range(3), x > 1) == 2 |
| First.FirstDefaultExamples | src_py/hat/util/first.py:27-30 | With no satisfying element the default comes back, None unless given |
| Cron.Word | src_py/hat/util/cron.py:38 | The longest whitespace-free prefix |
| Cron.Words | src_py/hat/util/cron.py:38 | str.split() yields non-empty words free of whitespace |
| Cron.WordsCons | src_py/hat/util/cron.py:38 | A word followed by a space splits into that word and the words of the rest |
| Cron.WordsJoin | src_py/hat/util/cron.py:38 | Words joined with single spaces split back into those words |
| Cron.ParseValue | src_py/hat/util/cron.py:117-154 | A digit string is accepted exactly when its value is within the field's range (minute 0-59, hour 0-23, day 1-31, month 1-12, day of week 0-6), and only values in range come out |
| Cron.ParseSimple | src_py/hat/util/cron.py:87-98 | A part without ',' parses to All only for "*", otherwise to a range or a value in the field's range |
| Cron.ParseEach | src_py/hat/util/cron.py:91-92 | Every part is parsed in order, the first failure being the result |
| Cron.ParseSubexpr | src_py/hat/util/cron.py:86-98 | The result is a simple sub-expression or a list with one item per comma-separated part |
| Cron.ParseSubexprSimple | src_py/hat/util/cron.py:90 | Without ',' the list branch is not taken |
| Cron.Parse | src_py/hat/util/cron.py:37-47 | Anything but five whitespace-separated fields fails with the field-count error; a success has well-formed fields |
| Cron.ParseFormatValue | src_py/hat/util/cron.py:117-154 | Every value in a field's range is parsed back from its decimal text |
| Cron.ParseFormatSimple | src_py/hat/util/cron.py:87-98 | Every simple sub-expression is parsed back from its text |
| Cron.ParseFormatRange | src_py/hat/util/cron.py:94-96 | "a-b" with both ends in range parses to that range |
| Cron.ParseFormatSubexpr | src_py/hat/util/cron.py:86-98 | Every well-formed sub-expression, lists included, is parsed back from its text |
| Cron.ParseFormatExpr | src_py/hat/util/cron.py:37-47 | Every expression parse can produce is parsed back from its single-spaced text |
| Cron.CronWeekday | src_py/hat/util/cron.py:80 | isoweekday() % 7 is in 0-6 with Sunday 0 |
| Cron.ReversedRangeMatchesNothing | src_py/hat/util/cron.py:108-109 | A range whose start is past its end matches no value |
| Cron.February30NeverMatches | src_py/hat/util/cron.py:62-83 | "0 0 30 2 *" matches no valid time |
| Cron.Truncate | src_py/hat/util/cron.py:53 | Seconds and microseconds become 0 and the minute stays the same |
| Cron.NextFrom | src_py/hat/util/cron.py:55-59 | A found time is valid and matches |
| Cron.NextFromWithin | src_py/hat/util/cron.py:55-59 | A found time lies strictly after the start and within the searched minutes |
| Cron.NextFromStep | src_py/hat/util/cron.py:55-59 | One turn adds a minute and returns it when it matches; at the last minute of year 9999 the search overflows |
| Cron.Next | src_py/hat/util/cron.py:50-59 | The loop truncates to the minute and then searches from there |
| Cron.NextFromIsEarliest | src_py/hat/util/cron.py:50-59 | No whole minute the search passed over matches, so a found time is the earliest match and an overflow means no later time matches |
| Calendar.DaysInMonth | src_py/hat/util/cron.py:56 | Months have 28 to 31 days, and February has 29 exactly in leap years |
| Calendar.AddMinute | src_py/hat/util/cron.py:56 | Adding a minute keeps seconds and microseconds and, except from the last minute of 9999, gives a valid time |
| Calendar.AddMinuteAdvances | src_py/hat/util/cron.py:56 | The result is exactly one minute later on the calendar's minute count |
| Calendar.IsoWeekdayExample | src_py/hat/util/cron.py:80 | 2024-01-01 is a Monday (isoweekday 1) |
| Strings.Split | src_py/hat/util/sqlite3.py:26 | split(sep) has one more part than separators and no part holds the separator |
| Strings.JoinSplit | src_py/hat/util/sqlite3.py:26 | Joining the parts with the separator gives the string back |
| Strings.SplitJoin | src_py/hat/util/sqlite3.py:26 | Splitting parts joined by a separator none of them holds gives the parts back |
| Strings.ParseNat | src_py/hat/util/sqlite3.py:35 | A number is read exactly from a non-empty string of digits |
| Strings.ParseFormatNat | src_py/hat/util/sqlite3.py:35 | Every natural number is read back from its decimal text |
| Strings.ParsePadNat | src_py/hat/util/sqlite3.py:35 | Zero-padded decimal text reads back as the number |
| Sqlite3.Adapt | src_py/hat/util/sqlite3.py:4-12 | isoformat(" ") has 19 characters, plus 7 with microseconds and 6 with an offset, with the date and then a space first |
| Sqlite3.Int | src_py/hat/util/sqlite3.py:35 | int succeeds exactly on a digit string, with its value |
| Sqlite3.Ints | src_py/hat/util/sqlite3.py:35-37 | Unpacking succeeds only with exactly n parts, each read as its number |
| Sqlite3.SplitZone | src_py/hat/util/sqlite3.py:27-34 | A '+' gives sign 1 and a '-' (with no '+') sign -1, cutting the text there; with neither the whole text is the time |
| Sqlite3.FormatFraction | src_py/hat/util/sqlite3.py:39 | The first six characters, right-padded with '0' to six |
| Sqlite3.Microseconds | src_py/hat/util/sqlite3.py:38-41 | Below a million, and 0 unless the time splits on '.' into exactly two pieces |
| Sqlite3.Offset | src_py/hat/util/sqlite3.py:42-47 | A non-empty zone text gives an offset strictly inside a day with the sign's direction; no text or empty text gives a naive timestamp |
| Sqlite3.Convert | src_py/hat/util/sqlite3.py:15-51 | A success comes from exactly one space, is a valid datetime, and has an offset only with a sign in the zone text, in its direction |
| Sqlite3.ConvertOfParts | src_py/hat/util/sqlite3.py:26-50 | With the pieces read, the result is the datetime of those fields when the constructor accepts them, and ValueError otherwise |
| Sqlite3.DatePartRoundTrip | src_py/hat/util/sqlite3.py:35 | The date text reads back as year, month and day |
| Sqlite3.ClockRoundTrip | src_py/hat/util/sqlite3.py:37 | The clock text reads back as hours, minutes and seconds |
| Sqlite3.FractionRoundTrip | src_py/hat/util/sqlite3.py:36-39 | Six digits after '.' read back as the microseconds |
| Sqlite3.TimePartRoundTrip | src_py/hat/util/sqlite3.py:36-41 | The time text reads back as its clock fields and microseconds |
| Sqlite3.OffsetOf | src_py/hat/util/sqlite3.py:42-47 | A written zone reads back as the same offset |
| Sqlite3.ZoneRoundTrip | src_py/hat/util/sqlite3.py:27-47 | The zone is cut off the time again and reads back as the same offset |
| Sqlite3.AdaptSplit | src_py/hat/util/sqlite3.py:26 | The adapter's text splits at its one space into the date and the time with zone |
| Sqlite3.ConvertAdapt | src_py/hat/util/sqlite3.py:4-51 | Converting what the adapter writes gives the same datetime and offset back |
| Sqlite3.EmptyZoneIsNaive | src_py/hat/util/sqlite3.py:42 | A trailing '+' with no zone text is accepted and gives a naive timestamp |
| Sqlite3.SecondFractionDropsMicroseconds | src_py/hat/util/sqlite3.py:38-41 | A second '.' part is accepted and the microseconds are then 0 |

## Left out

- Concurrency: the single-producer/single-consumer atomics of `ring.c`. The ring is modelled sequentially.
- Allocation failure:
  - `hat_ring_create` and `hat_ht_create` are modelled for an allocation that succeeds.
  - In `hat_ht_set` and `resize`, the allocation's outcome is a `bool` parameter.
- Other C functions:
  - `hat_ring_destroy`, `hat_ring_size`, `hat_ht_destroy` and the iterator accessors (`hat_ht_iter_key`, `hat_ht_iter_key_size`, `hat_ht_iter_value`) are frees or field reads.
  - The declarations of `ht.h` that `ht.c` does not implement are not part of this model.
- HashTable.Fnv: models the 64-bit `size_t` branch only; the 32-bit prime and basis are not modelled.
- HashTable.Table.Set: values are a type parameter, so a stored `NULL` value, which `hat_ht_get` cannot tell from an absent key, is not distinguished.
- Buff.Buff.Available: a `NULL` buffer pointer, for which the source returns 0, has no counterpart, since the model's buffer is always an object.
- Buff.Buff.Read: returns the offset of the data rather than a pointer into it.
- Ring.Ring.Used: returns offsets and lengths rather than pointers into the buffer; likewise `Ring.Ring.Unused`.
- JavaScript values:
  - JSON numbers are integers: floating point, `NaN` and `strictParseFloat` are left out, and isInteger coincides with isNumber.
  - `undefined` has no JSON value. Read from an array it is null, and in an object it is an absent key.
  - Prototype keys such as `__proto__` are not modelled.
- JsonEdit.ChangeFlat: a negative index assigns a property that is not an element. The model keeps the elements as they were and does not record that property.
- JsonEdit.Move: what the destination holds is stated only when the two paths part at different keys of one object. Where they part at array indices, the omit's splice shifts later elements, so the moved value may no longer be at the destination path.
- JsonEdit.Omit: the "invalid path" throw is unreachable for flattened numbers and strings and is not modelled.
- Misc.ToPairs: objects are maps, so the insertion order that `Object.entries` keeps (test_jest/misc.test.ts:189 expects `[['a', 1], ['b', 2]]`) is not modelled. The pairs list every entry exactly once, in an unspecified order. `Misc.Clone`, `Misc.Pick` and `Misc.FromPairs` rest on the same maps and keep no key order either.
- Misc.Equals: the `x === y` identity shortcut is not modelled, since the model's values have no identity; structural equality is what it then decides.
- Misc.SortBy: sorts by an integer key; the comparator on arbitrary values is not modelled.
- `misc.ts` functions outside this core (`map`, `filter`, `reduce`, `find` on objects, `curry` and the rest) are not modelled. Currying is left out throughout: every function takes all its arguments at once.
- JsonPatch.ApplyOperation: operations form a closed datatype, so an unknown `op` string (a TypeError in the source) cannot occur.
- JsonPatch.Get: its contract states only the error kinds; what it addresses is stated through Add, Remove, Replace, GetConcat and the operation lemmas.
- VNode.FlattenExample: is stated for any two nodes in the places of the test's two literal nodes, rather than for those literals.
- `queryVNodePath` and `queryAllVNodePaths` in `vnode.ts` are left out: their selector test always returns false, so they find nothing.
- `iter.ts` yields lazily; the model returns the whole sequence at once.
- Cron.Next: the search is bounded by a `fuel` number of minutes (`OutOfFuel`), because the source's `while True` loop never ends for an expression that matches no time, such as February 30th. Python's `OverflowError` past year 9999 is the `Overflow` result.
- Cron.ParseValue: reads Python's `int` as a plain string of decimal digits. Surrounding whitespace, `_` separators and signs, which `int` also accepts, are not modelled.
- Sqlite3.Int: the same reading of `int` as plain decimal digits.
- Sqlite3.Convert:
  - The input bytes are read as characters of the same codes.
  - Offsets are whole minutes, and time-zone-aware values carry a fixed offset only.
- First.First:
  - The predicate's truthiness is a `bool`.
  - The iterable is a finite sequence, so `first` over a dict's keys is that sequence of keys.
- BytesBuffer.BytesBuffer.Read: `memoryview` slices and the returned object's type (the chunk itself or a fresh `bytearray`) are modelled by their bytes only.
- `BytesBuffer` and `first` exist twice in the source (`bytes.py`/`first.py` and `util.py`). The copies are identical in behaviour and are modelled once.
- Left out as I/O, scheduling or introspection:
  - sockets;
  - `promise.ts`, `dragger.ts`, `timestamp.ts`, `pipe.ts` and `curry.ts`;
  - `callback.py`, `CallbackRegistry`, `register_type_alias` and the unused-port helpers;
  - the allocators.

## Findings

| source | as written | input that shows it | evidently intended | confidence | as-written member | corrected member |
|---|---|---|---|---|---|---|
| src_js/patch.ts:121 | the generator loop tests `start < stop`, which no iteration changes | `_add(['0'], v, [a])`: its `islice(data, 0)` has start 0 below stop 1, so the loop never ends | loop while `i < stop`, yielding `x[start..min(stop, length)]` as `src_js/iter.ts:19` does | not executed | JsonPatch.IsliceNeverFinishes | JsonPatch.Slice |
| src_js/misc.ts:143 | `zip` loops while either array has elements, padding with undefined | `zip([1], ['a', 'b', 'c'])` yields 3 pairs | truncate to the shorter array, as the doc comment at src_js/misc.ts:132-137 and the tests say | not executed | Misc.ZipLongestDisagreesWithTest | Misc.ZipShortest |
| src_js/misc.ts:451 | `union` appends an element when the element `find` returns is falsy | `union([0], [0])` gives `[0, 0]` | append only elements not already present | not executed | Misc.UnionAsWrittenDuplicatesFalsy | Misc.Union |
