# golib core in Dafny

This project models four parts of the Go library `morehao/golib`:

- **`gtree` tree builder** (`gtree/builder.go`). It turns a flat list of records into a forest. Each record has a key, a parent key and a root flag.
  - It indexes the records by key. A later record with the same key wins.
  - It links each non-root record into the child list of the record its parent key resolves to.
  - An *orphan* is a non-root record whose parent key is not in the index. The configured orphan strategy says what happens to it.
  - It optionally sorts the roots and every child list below them with a three-way comparator.
  - It answers level queries on the result: the nodes grouped by level, and the maximum level.
- **`gutils/tree` tree builder** (`gutils/tree/builder.go`). This is a near-duplicate of the first builder with two differences:
  - It clears every child list before linking anything.
  - It has no orphan strategy: an orphan is reported and dropped.
- **Slice helpers** (`gutils/slice.go`): difference, de-duplication, membership and fixed-size grouping.
- **Byte-level parts of the AES helper** (`gcrypto/aes.go`):
  - key-length normalisation;
  - PKCS #7 padding and unpadding, per section 6.3 of RFC 5652;
  - the length guards and framing around the GCM and CBC ciphers.

## How the model represents the source

- **Records.** A record is its position `i` in the input `nodes: seq<Record<K>>`.
- **Children.** The mutable children fields of all records are one `array<seq<nat>>`. Each entry lists child positions.
- **Error handler.** Each handler call is an entry `(node key, parent key)` in a returned log.
- **`sort.Slice`.** Go's `sort.Slice` is a library call. The model substitutes an insertion sort (`Sorting.SortSlice`). The builders rely only on its contract: a permutation in which every adjacent pair compares `<= 0`.
- **Recursion.** The recursive sorting and level queries terminate because of a ghost *rank*, which drops from every node to each of its children. Each builder's output has such a rank, proved without any precondition:
  - **`gtree`**: a record's children come after it in the input, because earlier ones are discarded when it is reset. So `n - i` is a rank (`GTree.ForwardRank`).
  - **`gutils/tree`**: the rank is `n - depth`, where *depth* is the number of parent links followed up to a record that is not linked. A pigeonhole argument shows that any walk which reaches such a record does so in fewer than `n` steps, and that includes every walk from a node below a root. Cyclic parent links are therefore never reachable from a root.
- **Cipher, randomness and environment.** The AES block cipher, the GCM seal and open, the random IV and nonce, and the environment lookup are all parameters.

Three points of the source's behaviour are worth stating outright:

- **Sibling order.** Both builders sort with `sort.Slice`, which is not stable. The model leaves the order of comparator-equal siblings unspecified.
- **Duplicate keys.** Both builders finish the whole key index before linking anything. So every parent lookup resolves a duplicated key to the last record with that key (`TreeNodes.KeyIndex`).
- **Collected orphans.** In `gtree`, the `CollectOrphans` strategy makes the orphan a root and does not call the error handler (gtree/builder.go:147-150, `GTree.OrphanPolicy`).

The tests in `gutils/tree/builder_test.go` disagree with the code in three places. The model follows the code:

- `TestTreeBuilder_DuplicateKeys` (lines 391-406) expects one child for two records with the same key. The code attaches both, and `GutilsTree.LinkedChildAttached` states this.
- `TestTreeBuilder_MissingParent` (lines 318-339) expects the error handler to have captured the orphan's key and its missing parent key. `TestTreeBuilder_MultipleOrphans` (lines 341-355) expects two handler calls. Neither test installs a handler with `WithErrorHandler`, so the default handler of gutils/tree/builder.go:65-67 runs; it only prints, and the test's own variables never change. The log `GutilsTree.Partition` returns is what a handler installed by those tests would have received: one entry per orphan, with its key and its parent key.

## Model

| member | source | states |
|---|---|---|
| TreeNodes.KeyIndex | gtree/builder.go:105-109 | every record's key is indexed; each entry names a record with that key, and no later record has that key (last write wins) |
| TreeNodes.Select | gtree/builder.go:113-134 | the positions one pass over the input appends for a selector: exactly the selected ones, in strictly increasing input order |
| Comparators.Compare | gtree/builder.go:282-340 | every built-in comparator returns -1, 0 or 1 |
| Comparators.FieldComparators | gtree/builder.go:282-306 | the ID, Order and Name comparators return a negative result iff the field is smaller (bytewise for names) and 0 iff it is equal |
| Comparators.FirstNonzero | gtree/builder.go:317-324 | the result is 0 iff every entry is 0; otherwise it is the first nonzero entry |
| Comparators.CompositeIsLexicographic | gutils/tree/builder.go:193-200 | a composite returns 0 iff every component does; otherwise it returns the first nonzero component result |
| Comparators.LexLessTrichotomy | gtree/builder.go:298-306 | Go's `<` on strings: exactly one of a < b, a == b, b < a |
| Comparators.LexLessTransitive | gtree/builder.go:298-306 | Go's `<` on strings is transitive |
| Comparators.CompareFlip | gtree/builder.go:282-340 | swapping the operands of any comparator negates its result |
| Comparators.CompareReflexive | gtree/builder.go:282-340 | every record compares 0 to itself |
| Comparators.CompareTransitive | gtree/builder.go:282-340 | `Compare <= 0` is transitive for every comparator, composites included, so each is a total preorder |
| Sorting.SortSlice | gtree/builder.go:166-168 | the sorted list is a permutation of the input in which each adjacent pair compares `<= 0` |
| Sorting.SortedPairwise | gtree/builder.go:166-168 | in such a list every earlier element compares `<= 0` to every later one |
| GTree.NewTreeBuilder | gtree/builder.go:83-97 | no comparator unless one is given, and `IgnoreOrphans` unless a strategy is given; otherwise the last option of each kind wins |
| GTree.IndexNodes | gtree/builder.go:105-109 | the map the indexing loop builds is the last-write-wins index |
| GTree.HandleOrphanNode | gtree/builder.go:145-158 | `CollectOrphans` clears the orphan's children and appends it to the roots without a handler call; the other strategies log (key, parent key) and change nothing else |
| GTree.LinkRecord | gtree/builder.go:114-133 | one visit: roots, handler log and child lists advance by exactly one record |
| GTree.Link | gtree/builder.go:112-134 | after the loop: roots and collected orphans in input order; one handler entry per unreported orphan; each child list is the closed form `LinkedState` |
| GTree.SortTree | gtree/builder.go:161-190 | the result is a sorted permutation of the list, and every child list in the subtrees below it becomes a sorted permutation of itself, all others unchanged |
| GTree.SortNodeChildren | gtree/builder.go:171-189 | one node's children are sorted, recursively below them, and nothing else changes |
| GTree.LinkedStateWellRanked | gtree/builder.go:113-134 | after linking, every child comes later in the input than its reset parent, so the forest below the roots is finite |
| GTree.Build | gtree/builder.go:100-142 | empty input gives no roots and no handler calls. Without a comparator, the roots and child lists are the linked closed forms. With one, the roots are a sorted permutation of them and every child list in the forest is a sorted permutation of its linked form. Either way, `GTree.ForwardRank` ranks the forest below the roots, so it is finite |
| GTree.BuildWithMap | gtree/builder.go:258-272 | the map has exactly one entry per distinct key, naming the last record with that key; the forest is the one `Build` gives |
| GTree.LinkedChildAttached | gtree/builder.go:113-134 | record c is added to q's children iff its parent key resolves to q and c does not precede q, or q is never reset |
| GTree.ChildBeforeParentLost | gtree/builder.go:116-127 | a child listed before its reset parent ends up in no new child list and is not a root |
| GTree.LostChildExample | gtree/builder.go:113-134 | the two-record input child-then-root yields root 1 with no children |
| GTree.OrphanPolicy | gtree/builder.go:145-158 | a collected orphan is a root and the handler is never called; otherwise the orphan is reported with its key and missing parent key and is not a root. It joins no child list either way |
| GTree.LevelsAreLayers | gtree/builder.go:205-226 | level 0 is the root list, level k+1 is the in-order concatenation of the children of level k, all levels are non-empty, and the last level has no children |
| GTree.NextLevelRanked | gtree/builder.go:214-220 | the children of a ranked list form a ranked list with a smaller rank bound |
| GTree.CollectNextLevel | gtree/builder.go:214-220 | the loop collects the concatenated children of the current level |
| GTree.TraverseByLevel | gtree/builder.go:205-226 | from `level` on, the result map gains exactly the levels below the list, each appended to what the map held |
| GTree.GetNodesByLevel | gtree/builder.go:194-202 | the keys are exactly 0..m and key l holds level l; the map is empty for empty roots |
| GTree.MaxHeightNextLevel | gtree/builder.go:237-255 | the height below a non-empty list is one more than the height below its children, or 0 when it has none |
| GTree.LevelCountIsHeight | gtree/builder.go:229-255 | the number of levels is one more than the maximum depth below the roots |
| GTree.MaxLevelFrom | gtree/builder.go:237-255 | the result is the starting level plus the maximum depth below the list |
| GTree.GetMaxLevel | gtree/builder.go:229-234 | -1 for empty roots; otherwise the index of the last non-empty level |
| GutilsTree.ResetAndIndex | gutils/tree/builder.go:84-89 | every child list is cleared and the map is the last-write-wins index |
| GutilsTree.LinkRecord | gutils/tree/builder.go:93-106 | one visit: roots, handler log and child lists advance by exactly one record |
| GutilsTree.Link | gutils/tree/builder.go:92-107 | roots in input order, one handler entry per orphan, and each child list holds exactly the records whose parent key resolves to it, in input order |
| GutilsTree.LinkedChildAttached | gutils/tree/builder.go:84-107 | record i is in q's children iff its parent key resolves to q, whatever the input order; duplicate-keyed children are all attached |
| GutilsTree.ChildBeforeParentKept | gutils/tree/builder.go:84-107 | the two-record input child-then-root yields root 1 with child 0 |
| GutilsTree.ShadowedKeyChildless | gutils/tree/builder.go:84-102 | a record whose key a later record reuses receives no children |
| GutilsTree.NoRootsEmptyForest | gutils/tree/builder.go:92-107 | input with no root record gives an empty forest |
| GutilsTree.TotalLengthAppend | gutils/tree/builder.go:100-101 | appending one child adds one to the total length of all child lists |
| GutilsTree.PlacedOnce | gutils/tree/builder.go:92-107 | after k visits, roots plus children plus handler calls number exactly k |
| GutilsTree.Partition | gutils/tree/builder.go:92-107 | each record is a root iff marked so; it is in some child list iff its parent key resolves; every orphan is reported. Roots, children and reports together count every record once |
| GutilsTree.GroundedWithinBound | gutils/tree/builder.go:129-154 | an upward walk that ends does so within fewer than n steps, because it never revisits a record |
| GutilsTree.ChildDepth | gutils/tree/builder.go:129-154 | a linked record is one level deeper than its parent |
| GutilsTree.RootsWellRanked | gutils/tree/builder.go:129-154 | the forest below the roots is finite: depth gives a rank that drops along every child link |
| GutilsTree.SortNodes | gutils/tree/builder.go:119-126 | with no comparator the list is unchanged; with one, it is a sorted permutation |
| GutilsTree.SortChildrenRecursive | gutils/tree/builder.go:129-154 | every child list in the subtrees below the list becomes a sorted permutation of itself; all others are unchanged |
| GutilsTree.SortChildrenOf | gutils/tree/builder.go:130-153 | one node's children are replaced by a sorted copy and sorted below, and nothing else changes |
| GutilsTree.Build | gutils/tree/builder.go:78-116 | empty input gives no roots and no handler calls. Without a comparator, the roots and child lists are the linked closed forms. With one, the roots are a sorted permutation and every child list in the forest is a sorted permutation of its linked form |
| Slices.Diff | gutils/slice.go:4-21 | x is in the difference iff it is in a and not in b, with a's multiplicity for every such x |
| Slices.DiffIsSubsequence | gutils/slice.go:12-18 | the difference keeps the order of a |
| Slices.SliceDiff | gutils/slice.go:4-21 | the loops compute the difference |
| Slices.Dedup | gutils/slice.go:23-34 | the result has the same elements as the input and no repeats |
| Slices.DedupIsSubsequence | gutils/slice.go:23-34 | the result keeps the order of the input |
| Slices.DedupFirstOccurrenceOrder | gutils/slice.go:23-34 | elements appear in the order of their first occurrence in the input |
| Slices.SliceDuplicate | gutils/slice.go:23-34 | the loop computes the de-duplication |
| Slices.SliceContain | gutils/slice.go:36-43 | true iff some element equals the target |
| Slices.CeilDiv | gutils/slice.go:56 | the least q with n <= q * d |
| Slices.ChunksSpec | gutils/slice.go:56-68 | the groups concatenate back to the input; each has 1..size elements and all but the last have exactly size |
| Slices.ChunksCount | gutils/slice.go:56-68 | there are ceil(len / size) groups |
| Slices.GroupCount | gutils/slice.go:56 | the capacity computed without overflow equals ceil(len / size) and never exceeds the length |
| Slices.SliceGroup | gutils/slice.go:46-69 | no groups (nil) iff the size is not positive; otherwise the input cut into groups, and an empty input gives an empty list. The capacity follows the intended `GroupCount`; the int64 overflow and `make` panic are left out |
| Slices.GroupCountAsWrittenAgrees | gutils/slice.go:56 | when len + size - 1 fits in int64, the 64-bit capacity equals the intended one |
| Slices.GroupCountOverflowExample | gutils/slice.go:56-57 | for length 2 and size 2^63-1 the 64-bit capacity is -1, while the intended capacity is 1 |
| Aes.KeySource | gcrypto/aes.go:37-39 | an empty key is replaced by the environment key or the built-in key, and the result is never empty |
| Aes.NewAES | gcrypto/aes.go:35-57 | the key length is 16, 24 or 32. A valid key is kept; any other key becomes 32 bytes, keeping its first min(len, 32) bytes and zero-filling the rest |
| Aes.DefaultKeyPadded | gcrypto/aes.go:18 | the built-in key is 31 bytes, not a valid AES length |
| Aes.Pad | gcrypto/aes.go:187-194 | 1..blockSize bytes are added; the length becomes a multiple of blockSize; the data is a prefix; every added byte is the count mod 256 |
| Aes.Pkcs7Padding | gcrypto/aes.go:187-194 | the buffer loop produces the padding |
| Aes.Pkcs7UnPadding | gcrypto/aes.go:197-207 | error for empty data and for a last byte above the length; otherwise exactly last-byte-many bytes are dropped from the end |
| Aes.UnPadPad | gcrypto/aes.go:187-207 | unpadding undoes padding for every block size from 1 to 255 |
| Aes.UnPaddingIgnoresTail | gcrypto/aes.go:202-206 | the dropped bytes are not checked: any tail ending in its own length is removed |
| Aes.EncryptCBC | gcrypto/aes.go:132-155 | the ciphertext starts with the IV |
| Aes.DecryptCBC | gcrypto/aes.go:158-184 | input shorter than a block is rejected before decryption; otherwise the decrypted body after the IV is unpadded |
| Aes.CBCRoundTrip | gcrypto/aes.go:132-184 | decrypting an encryption returns the plaintext whenever the cipher inverts itself on the padded text |
| Aes.Encrypt | gcrypto/aes.go:60-81 | the ciphertext starts with the nonce |
| Aes.Decrypt | gcrypto/aes.go:84-107 | input shorter than the nonce is rejected before opening; otherwise the part after the nonce is opened |
| Aes.GCMRoundTrip | gcrypto/aes.go:60-107 | decrypting an encryption returns the plaintext whenever opening inverts sealing |

## Left out

- **Builder options.** `WithContext` and `WithErrorHandler` are not modelled, and neither is the default handler that prints. The handler is the returned log.
- **Sort order of equal siblings.** `sort.Slice` is not stable, so the order of siblings that compare 0 is left unspecified.
- **Interface conversions.** The model does not capture the `TreeNode` interface, the `child.(N)` type assertions (which would panic on a foreign node type), or the in-place sharing between `GetChildren` and the sorted slice. Children are positions, and a sorted list is stored back into the record's entry.
- **Nil versus empty.** Empty results are `[]`. Where Go returns nil rather than an empty slice (`SliceDiff` with nothing left, `Build` with no roots), the model does not tell them apart. The one exception is `SliceGroup`, which uses `None` for nil.
- **Aliasing in `SliceGroup`.** Each group is a fresh copy in Go. Sequences are values, so the model cannot express aliasing at all.
- **Element equality.** Go's map-based sets are modelled as Dafny sets over types with equality. Values that are not equal to themselves, such as NaN, are not modelled.
- **Integer widths.**
  - `GetID() uint` is a `nat` and `GetOrder() int` is an `int`. Lengths are unbounded.
  - 64-bit arithmetic is modelled only for the `SliceGroup` capacity, where it matters.
- **Custom comparators.** Only the built-in ID, Name, Order and Composite comparators are modelled. `gutils/tree` has no Order comparator. A model shared by both builders still accepts one for it.
- **Ciphers.** `crypto/aes`, `crypto/cipher` and the GCM seal and open are function parameters. So are the random IV and nonce, and the environment variable.
  - The `NewCipher` error path is not modelled, because a normalised key always has a valid length.
  - `CryptBlocks` panics on a body that is not a whole number of blocks. This is not modelled: the decrypter parameter accepts any body.
- Slices.SliceGroup: follows the intended capacity (`Slices.GroupCount`). It does not model the int64 overflow of `length + groupSize - 1` or the `make` panic on the negative capacity that results when that sum exceeds the int64 range (see Findings).
- **Base64.** `EncryptString` and `DecryptString` are base64 wrappers and are not modelled.
- **Ranked level queries.**
  - `GTree.GetNodesByLevel`: takes a ghost rank showing the forest below the roots is finite. Go would recurse forever on cyclic hand-built child lists. `GTree.ForwardRank` is such a rank for every forest `Build` produces, as `GTree.Build` and `GTree.BuildWithMap` state.
  - `GTree.GetMaxLevel`: takes the same ghost rank, for the same reason.
- **Concrete depth example.** The five-node chain example (maximum level 4) is not stated as a concrete lemma. `GTree.LevelCountIsHeight` gives the general rule.

## Findings

| source | as written | input that shows it | evidently intended | confidence | as-written member | corrected member |
|---|---|---|---|---|---|---|
| gtree/builder.go:118-127 | a record's child list is cleared when the loop reaches that record, which throws away children linked to it earlier | `[{key 2, parent 1}, {key 1, root}]`: record 0 is linked to record 1, then record 1 is reset, so root 1 ends with no children and record 0 is nowhere in the forest | every child is attached whatever the input order, as the `gutils/tree` variant does by clearing all child lists before linking | high, not executed | GTree.ChildBeforeParentLost | GutilsTree.LinkedChildAttached |
| gutils/slice.go:56-57 | the capacity `(length + groupSize - 1) / groupSize` is computed in int64 | length 2, `groupSize` = 2^63-1: the sum wraps to -2^63, the quotient is -1, and `make` panics on a negative capacity | a capacity of ceil(length / groupSize), here 1, computed without overflow as `(length - 1) / groupSize + 1` | high, not executed | Slices.GroupCountOverflowExample | Slices.GroupCount |
