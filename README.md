# rdms core, modelled in Dafny

This project models the sequential core of rdms. rdms is a Rust storage library of
in-memory and on-disk indexes over versioned key/value entries. The project covers
four subsystems, and each one is proved against its own specification.

- **Version chains** (`Core`, `TypeBytes`).
  - An index entry keeps the newest version of a key as its head value. Older
    versions follow as deltas, newest first, and each version carries the seqno
    of the write that made it.
  - The model covers `prepend_version` (LSM and plain), `delete`, `purge` under
    the three compaction cutoffs, `skip_till`/`filter_within` (restricting an
    entry to a seqno window), `xmerge`/`validate_xmerge` (splicing two chains)
    and the version iterator with `next_value`.
  - Values are byte strings with the `Diff` instance of `type_bytes.rs`. A
    delta there is the older value itself, so `merge(cur, diff(cur, old)) == old`.
  - Each operation is tied to `Versions(e)`, the list of versions an entry
    yields. For example, prepending adds exactly one version in front,
    `filter_within` keeps exactly the versions inside the window, and `xmerge`
    yields the newer chain followed by the older one.
- **Left-leaning red-black tree** (`LlrbTree`) **and its test oracle** (`RefTest`).
  - The recursive helpers `upsert`, `upsert_cas`, `delete_lsm`, `do_delete` and
    `delete_min` are functions on a tree datatype. So are the rotations,
    `flip`, `fixup` and `move_red_*`.
  - The proofs show they keep the search-tree order and the red-black rules
    (equal black height, no red right link, no red-red pair). They also show
    each key's lookup changes exactly as the operation says.
  - The index `Llrb` is a class. Its `set`, `set_cas`, `delete` and `squash`
    update `root`, `seqno` and `n_count`, and `n_count` always equals the
    number of keys.
  - The oracle `RefNodes` is a class over a vector of slots indexed by key.
    Its `range` and `reverse` are proved to be the present nodes within the
    bounds, in ascending and descending key order.
- **Write-ahead-log codecs** (`WalOp`, `DlogEntry`).
  - The big-endian formats of the log operations (Set, SetCAS, Delete) and of
    the Term and Client entries of `dlog_entry.rs`.
  - The encoders back-patch their header words into the buffer. They are
    proved to append exactly the encoding to the buffer and to return its
    size.
  - The decoders are proved to invert the encoders for any trailing bytes,
    and to fail with `ShortBuffer` at the exact wanted length for every
    truncation.
  - `dlog_entry.rs` carries its own copy of the operation codec. Its encoders
    and per-operation decoders do what those of `wal.rs` do (506-667 against
    479-640), so both are modelled once, in `WalOp`. The dispatching decoders
    differ: `wal.rs` starts from `Default::default()` placeholders, while
    `dlog_entry.rs` (`Op::decode` and `Entry::decode`) starts from
    `unsafe { mem::zeroed() }` ones (see Left out).
- **Read-only B-tree blocks and build** (`RobtIndx`, `RobtBuild`, `BubtConfig`).
  - The m-block and z-block encoders are classes. They append entries, record
    offsets and, in `finalize`, write the count and offset header in place,
    shift the offsets and pad the block.
  - Decoding a finalized block gives back the count, the shifted offsets and
    the payload.
  - The builder stacks m-blocks over z-blocks and flushes them into an index
    byte sequence and a value-log byte sequence.
  - The proofs show the file positions, the build statistics and the output
    grow together. The counters are exactly those of the kept entries.
  - The configuration builders, the file names and `read_meta_items` are
    modelled over the index file as a byte sequence. A layout of stats block,
    metadata blocks and marker block is proved to read back as
    `[Marker, Metadata, Stats, Root]`.

Conventions:

- `panic!`, `unreachable!()`, a failed `unwrap`, an arithmetic overflow and an
  out-of-range index are all the error `Panic` of `Common.Result`, never a
  precondition. Every operation is therefore total, and its failure cases are
  part of its contract.
- Integers are unbounded. Where the source truncates or can overflow, the
  model says so explicitly:
  - `as u32` is `AsU32`;
  - `u32` offset arithmetic is written as `% U32_LIMIT`;
  - `u64` subtraction in `read_meta_items` panics below zero, as Rust's
    checked arithmetic does in a debug build.
- Keys of the tree are integers and values byte strings. The oracle's keys
  and values are `i64`.
- Functions the core calls but does not define are parameters:
  - the m-block and z-block entry encoders of `robt_entry.rs`;
  - `Stats::to_string` (`render`);
  - the entry purge of the builder's API generation (`purge`);
  - the number of bytes a `read` returns (`got`);
  - UTF-8 decoding (`utf8`);
  - the oracle's reading of an index value (`valueOf`).

Where the code and its documentation disagree, or the code is quirky, the model
follows the code:

- `Cutoff::new_tombstone_empty` builds an `Lsm` cutoff.
- In the oracle, LSM `delete` of an already deleted slot marks it deleted
  again at the new seqno and returns the changed node. The tree instead
  leaves such a key alone and does not advance its seqno.
- The oracle's `set_cas` compares `cas` with the head's write seqno. It does
  not use `get_seqno`.
- `read_meta_items` reports a short read of the metadata or stats blocks as
  `PartialRead(8, n)`, because it passes the length of its 8-byte scratch
  buffer.
- `z_block.insert` keeps the descriptor it pushed even when the insertion
  overflows.

## Model

| member | source | states |
|---|---|---|
| Core.Cutoff.ToBound | src/core.rs:82-88 | Mono gives `Excluded(0)`; Lsm and Tombstone give their own bound |
| Core.NewTombstoneEmpty | src/core.rs:71-73 | the "empty tombstone" cutoff is an Lsm cutoff, and it is empty |
| Core.NewLsmEmpty | src/core.rs:79-81 | the empty Lsm cutoff is Lsm and empty |
| Core.IsEmptyIffExcludedZero | src/core.rs:90-97 | a cutoff is empty exactly when it is not Mono and its bound is `Excluded(0)` |
| Core.Entry.PrependVersion | src/core.rs:896-955 | non-LSM replaces only the head; LSM fails with UnReachable on a reference head, otherwise inserts exactly one delta at index 0 that carries the old head's seqno, deleted state and value, and makes the new value the head |
| Core.Entry.Delete | src/core.rs:958-983 | fails with UnReachable exactly on a reference head; otherwise pushes one delta for the old head at index 0 and makes the head a tombstone at the given seqno |
| Core.TakeWhileNewer | src/core.rs:1020-1031 | the longest prefix of deltas whose seqnos are all newer than the cutoff |
| Core.PurgeMono | src/core.rs:992-1000 | Mono drops a deleted entry and keeps a live one with its deltas cleared (its head as only version) |
| Core.PurgeTombstone | src/core.rs:1002-1008 | Tombstone drops exactly the deleted entries whose head is at or below (Included), below (Excluded) or any (Unbounded) cutoff; every other entry is kept unchanged |
| Core.PurgeLsm | src/core.rs:1011-1033 | an Lsm cutoff of 0 keeps everything; otherwise the entry is dropped exactly when its head is not newer than the cutoff, and else keeps the newer prefix of its deltas |
| Core.PurgeLsmKeepsNewer | src/core.rs:1011-1033 | the versions an Lsm purge keeps are a prefix of the entry's versions, all newer than the cutoff, and the first version dropped is not newer |
| Core.EmptyCutoffKeepsEntry | src/core.rs:1012-1014 | purging with an empty cutoff keeps the entry unchanged |
| Core.Entry.ValidateXMerge | src/core.rs:1157-1187 | succeeds exactly when the seqnos of both chains, newer first, are strictly decreasing; fails with UnExpectedFail otherwise |
| Core.SeqnoList | src/core.rs:1159-1162 | the head seqno followed by each delta's seqno |
| Core.AdjacentDecreasing | src/core.rs:1163-1166 | no adjacent pair `a <= b` is the same as strictly decreasing throughout |
| Core.NextValue | src/core.rs:1346-1372 | fails exactly on a reference delta; a D delta gives a tombstone and no current value; a U delta gives the delta's value (merge of a byte value ignores the current one) at the delta's seqno |
| Core.VersionsShape | src/core.rs:1313-1344 | the versions are the head, then one entry per delta in order, stopping at the first reference value or delta, each with the entry's key and no deltas |
| Core.ChainShape | src/core.rs:1326-1343 | the deltas' versions run up to the first reference delta, one per delta |
| Core.ChainIgnoresCurrent | src/core.rs:1360-1371 | the versions rebuilt from the deltas do not depend on the current value (the `Vec<u8>` merge returns the delta) |
| Core.PrependVersionAddsVersion | src/core.rs:912-955 | an LSM prepend adds exactly the new version in front of the entry's versions |
| Core.PrependVersionReplacesHead | src/core.rs:905-909 | a non-LSM prepend replaces the first version and keeps the rest |
| Core.DeleteAddsTombstone | src/core.rs:958-983 | a delete adds exactly a tombstone version in front of the entry's versions |
| Core.VersionSeqnos | src/core.rs:1159-1162 | with no references the versions' seqnos are the seqno list; an ordered chain yields descending versions from the head seqno to the oldest |
| Core.Oldest | src/core.rs:1072 | the seqno of the last delta, or the head's when there is none |
| Core.FirstWithin | src/core.rs:1087-1104 | the index of the first delta within the end bound, all before it outside |
| Core.SkipTill | src/core.rs:1066-1108 | None when the head is before the start or the oldest version after the end; the entry unchanged when the head is within the end; otherwise the first delta within the end as head with the remaining deltas in order, failing exactly when a reference delta is reached |
| Core.SkippedVersions | src/core.rs:1087-1104 | the entry `skip_till` builds at delta k yields exactly the versions after the first k + 1 |
| Core.PurgeBeforeKeepsFrom | src/core.rs:1050-1062 | for an entry whose versions all have positive seqnos, the purge `filter_within` applies keeps exactly the versions at or after the start bound |
| Core.ZeroSeqnoKept | src/core.rs:1014-1015 | with start bound `Excluded(0)` a version at seqno 0 survives the purge although it is before the start bound |
| Core.FilterWithin | src/core.rs:1045-1064 | on an ordered chain with no references and positive seqnos, the result yields exactly the versions whose seqno is inside the window, and is None exactly when there are none |
| Core.KeepWindowTwice | src/core.rs:1045-1064 | filtering by the window is filtering by the end bound and then by the start bound |
| Core.VersionIter.constructor | src/core.rs:1111-1122 | the iterator's pending versions are the entry's versions |
| Core.VersionIter.Next | src/core.rs:1313-1344 | yields the first pending version and drops it, or None once none are left |
| Core.CollectVersions | src/core.rs:1111-1122 | collecting the iterator gives exactly `Versions(e)` |
| Core.MutEntry.PrependVersion | src/core.rs:896-955 | the entry in place becomes the result of `Entry.PrependVersion`, or stays as it was on error |
| Core.MutEntry.Delete | src/core.rs:958-983 | the entry in place becomes the result of `Entry.Delete`, or stays as it was on error |
| Core.PrependAll | src/core.rs:1148-1151 | prepending the versions oldest first fails exactly when some are prepended onto a reference head; otherwise yields those versions, re-keyed, in front of the older entry's versions |
| Core.XMerge | src/core.rs:1134-1155 | panics on equal head seqnos; fails with the validation error when checking is on; otherwise the merged entry yields the newer entry's versions followed by the older entry's, under the older entry's key |
| TypeBytes.MergeUndoesDiff | src/type_bytes.rs:8-15 | `merge(new, diff(new, old)) == old` |
| TypeBytes.MergeIgnoresNewer | src/type_bytes.rs:13-15 | merge depends only on the delta |
| TypeBytes.Encode | src/type_bytes.rs:19-24 | appends the value to the buffer, keeps the prefix, returns the value's length |
| TypeBytes.Decode | src/type_bytes.rs:26-30 | the decoded value is the buffer |
| LlrbTree.Lookup | src/llrb.rs:498-504 | a found entry has the key looked up |
| LlrbTree.FindKeys | src/llrb.rs:498-504 | a key is found exactly when it is in the tree |
| LlrbTree.FindSearch | src/llrb.rs:498-504 | in a search tree a lookup descends left, right or stops by comparing keys |
| LlrbTree.RotateLeft | src/llrb.rs:627-637 | panics exactly on a black right link; otherwise keeps the in-order sequence, the keys and the search order |
| LlrbTree.RotateRight | src/llrb.rs:649-659 | panics exactly on a black left link; otherwise keeps the in-order sequence, the keys and the search order |
| LlrbTree.Flip | src/llrb.rs:669-673 | needs both children; inverts the three colours and keeps order and keys |
| LlrbTree.WalkdownRot23 | src/llrb.rs:599-601 | leaves the tree unchanged |
| LlrbTree.WalkupRot23 | src/llrb.rs:603-615 | keeps the in-order sequence, keys and search order |
| LlrbTree.Fixup | src/llrb.rs:675-693 | keeps the in-order sequence, keys and search order |
| LlrbTree.MoveRedLeft | src/llrb.rs:695-703 | keeps in-order sequence, keys and search order, and the left subtree's keys stay on the left |
| LlrbTree.MoveRedRight | src/llrb.rs:705-712 | keeps in-order sequence, keys and search order |
| LlrbTree.MoveRedLeftBorrows | src/llrb.rs:695-703 | with a red grandchild on the right, the exact tree `move_red_left` builds by flip, rotate right, rotate left, flip |
| LlrbTree.MoveRedRightBorrows | src/llrb.rs:705-712 | with a red left grandchild, the exact tree `move_red_right` builds by flip, rotate right, flip |
| LlrbTree.Upsert | src/llrb.rs:281-315 | the tree afterwards holds the old keys plus the new one |
| LlrbTree.UpsertFinds | src/llrb.rs:281-315 | keeps the search order, returns the old entry, stores the written entry under the key and changes no other key |
| LlrbTree.UpsertGrows | src/llrb.rs:281-315 | keeps the black height and the red-black rules, up to a red-red pair under a red root |
| LlrbTree.CasAt | src/llrb.rs:336-357 | at the key's node, fails with InvalidCAS exactly when the cas rule rejects it, leaving the tree unchanged |
| LlrbTree.UpsertCas | src/llrb.rs:317-361 | on InvalidCAS the tree is unchanged and nothing is returned; otherwise the key is added |
| LlrbTree.UpsertCasFinds | src/llrb.rs:317-361 | fails exactly when a missing key has cas > 0, a live key a cas other than its seqno, or a deleted key a cas other than 0 and its seqno; on success writes like upsert |
| LlrbTree.UpsertCasGrows | src/llrb.rs:317-361 | on success keeps the red-black rules; on failure returns the tree itself |
| LlrbTree.DeleteLsm | src/llrb.rs:363-407 | the tree afterwards holds the old keys plus the deleted one |
| LlrbTree.DeleteLsmFinds | src/llrb.rs:363-407 | returns the old entry, stores a tombstone for a live or missing key, leaves a deleted key as it was, and changes no other key |
| LlrbTree.DeleteLsmGrows | src/llrb.rs:363-407 | keeps the black height and the red-black rules |
| LlrbTree.DeleteMin | src/llrb.rs:472-488 | removes and returns the first in-order entry of a non-empty tree |
| LlrbTree.DeleteMinFinds | src/llrb.rs:472-488 | keeps the search order and every other key's entry |
| LlrbTree.DeleteMinShrinks | src/llrb.rs:472-488 | on a tree whose root or left child is red, succeeds, keeps the red-black rules and black height, and removes exactly the minimum key |
| LlrbTree.DoDelete | src/llrb.rs:410-469 | never adds a key |
| LlrbTree.DoDeleteFinds | src/llrb.rs:410-469 | keeps the search order, returns the deleted entry, leaves the key absent and every other key's entry unchanged |
| LlrbTree.DoDeleteShrinks | src/llrb.rs:410-469 | on a suitably red-leaning tree, succeeds, keeps the red-black rules and removes exactly the key |
| LlrbTree.DeleteRoot | src/llrb.rs:264-271 | a delete from a valid tree with a black root succeeds, and the blackened result is valid with the key removed |
| LlrbTree.BlackenRoot | src/llrb.rs:178 | blackening the root keeps order and keys and leaves a black root |
| LlrbTree.Inserted | src/llrb.rs:168-188 | a grown tree with a new entry under one key becomes a valid tree with a black root, one more key exactly when the key was absent |
| LlrbTree.Removed | src/llrb.rs:264-278 | a tree with one key deleted has one key fewer exactly when the key was present |
| LlrbTree.SetRoot | src/llrb.rs:168-188 | a write at the root gives a valid tree that stores the written entry and changes no other key |
| LlrbTree.SetCasRoot | src/llrb.rs:196-225 | a CAS write fails exactly by the cas rule and then returns the tree unchanged; otherwise it writes like `set` |
| LlrbTree.DeleteLsmRoot | src/llrb.rs:243-261 | an LSM delete at the root returns the old entry and leaves the tombstoned entry |
| LlrbTree.DoDeleteRoot | src/llrb.rs:264-278 | a non-LSM delete at the root succeeds, returns the old entry and leaves a valid tree without the key |
| LlrbTree.MarkedAtRoot | src/llrb.rs:243-261 | the LSM delete with the root set black returns the entry found and leaves a valid tree holding its tombstone, with the key added and no other key changed |
| LlrbTree.UnlinkedAtRoot | src/llrb.rs:264-278 | the non-LSM delete with the root set black returns the entry found and leaves a valid tree without the key, every other key unchanged |
| LlrbTree.Paint | src/llrb.rs:669-673 | repainting a node keeps order and keys |
| LlrbTree.Llrb.New | src/llrb.rs:76-87 | an empty non-LSM index with seqno 0 and no entries |
| LlrbTree.Llrb.NewLsm | src/llrb.rs:93-104 | an empty LSM index with seqno 0 and no entries |
| LlrbTree.Llrb.Len | src/llrb.rs:146-148 | `n_count` is the number of keys in the tree |
| LlrbTree.Llrb.Get | src/llrb.rs:498-504 | finds an entry exactly when the key is in the tree, and it has that key |
| LlrbTree.Llrb.SetSeqno | src/llrb.rs:133-135 | sets seqno and nothing else |
| LlrbTree.Llrb.Set | src/llrb.rs:168-188 | returns the previous entry, stores the written entry, changes no other key, seqno + 1, `n_count` + 1 exactly when the key was absent |
| LlrbTree.Llrb.SetCas | src/llrb.rs:196-225 | on InvalidCAS nothing changes; otherwise as `set` |
| LlrbTree.Llrb.Delete | src/llrb.rs:236-279 | returns the previous entry and changes no other key. LSM (`Marked`): the key holds a tombstone at seqno + 1, or its old tombstone; seqno + 1 unless it was already deleted; `n_count` + 1 exactly for a missing key. Non-LSM (`Unlinked`): the key is removed, seqno + 1 always, `n_count` − 1 exactly when found |
| LlrbTree.Llrb.Squash | src/llrb.rs:121-127 | returns the root, seqno and count; leaves an empty non-LSM index |
| RefTest.RefValue.GetSeqno | src/ref_test.rs:13-23 | the delete seqno of a deleted version, the write seqno otherwise; panics exactly when the delete precedes the write |
| RefTest.RefNode.GetSeqno | src/ref_test.rs:33-35 | the head version's seqno, panicking on an empty node |
| RefTest.RefNode.IsDeleted | src/ref_test.rs:37-39 | whether the head version is deleted, panicking on an empty node |
| RefTest.RefNodes.New | src/ref_test.rs:53-61 | a vector of empty slots with seqno 0 |
| RefTest.RefNodes.Get | src/ref_test.rs:63-71 | panics outside the vector; None exactly for a slot without versions, else that slot |
| RefTest.RefNodes.Iter | src/ref_test.rs:73-75 | exactly the present slots, in increasing key order |
| RefTest.LowIndex | src/ref_test.rs:78-83 | the first index within the low bound |
| RefTest.HighIndex | src/ref_test.rs:84-89 | one past the last index within the high bound |
| RefTest.RefNodes.Range | src/ref_test.rs:77-104 | panics on an unrepresentable bound; empty for an invalid window; otherwise only present slots |
| RefTest.RefNodes.RangeIsWithin | src/ref_test.rs:77-104 | the range is exactly the present slots within both bounds, in increasing key order |
| RefTest.RefNodes.Reverse | src/ref_test.rs:106-133 | the range in reverse order |
| RefTest.RefNodes.ReverseDecreasing | src/ref_test.rs:106-133 | the reverse range is in decreasing key order |
| RefTest.PresentRev | src/ref_test.rs:106-133 | filtering the present slots commutes with reversal |
| RefTest.RefNodes.Set | src/ref_test.rs:135-156 | seqno + 1; returns the old node if present; LSM or empty prepends a version, non-LSM overwrites the head; no other slot changes |
| RefTest.RefNodes.SetCas | src/ref_test.rs:158-185 | an empty slot with cas ≠ 0 panics; a mismatch returns None with nothing changed; a match writes as `set` |
| RefTest.RefNodes.Delete | src/ref_test.rs:187-220 | seqno + 1; non-LSM clears a present slot; LSM marks the head deleted, or adds a tombstone version at seqno 0 to an empty slot |
| RefTest.RefNodes.GetSeqnoTotal | src/ref_test.rs:13-23 | in a valid oracle a present slot's `get_seqno` succeeds and lies between its write seqno and the oracle's seqno |
| RefTest.CheckNode | src/ref_test.rs:223-273 | false exactly when neither side has a node; true exactly when key, head value, seqno, deleted state and every version match; otherwise a panic |
| WalOp.OpTypeFrom | src/wal.rs:307-314 | codes 1 to 3 are the op types; any other code is unreachable |
| WalOp.Default | src/wal.rs:334-338 | a Delete with an empty key |
| WalOp.Encoding | src/wal.rs:426-441 | the encoded size, the back-patched header word, the value length and cas words, then key and value |
| WalOp.EncodeSet | src/wal.rs:479-491 | appends exactly the Set encoding and returns `16 + klen + vlen` |
| WalOp.EncodeSetCas | src/wal.rs:542-560 | appends exactly the SetCAS encoding and returns `24 + klen + vlen` |
| WalOp.EncodeDelete | src/wal.rs:611-623 | appends exactly the Delete encoding and returns `8 + klen` |
| WalOp.Encode | src/wal.rs:426-441 | appends exactly the operation's encoding and returns its size |
| WalOp.OpTypeOf | src/wal.rs:414-418 | fails on fewer than 8 bytes; the op type is bits 32..55 of the first word |
| WalOp.Body | src/wal.rs:496-516 | reads key and value after the header, failing with ShortBuffer at header + klen, then header + klen + vlen |
| WalOp.ParseSet | src/wal.rs:493-517 | a Set whose encoded size is the bytes consumed, payload read from offset 16 |
| WalOp.ParseSetCas | src/wal.rs:562-593 | a SetCAS with the cas word at 16..24, payload from offset 24 |
| WalOp.ParseDelete | src/wal.rs:625-640 | a Delete consuming `8 + klen` bytes |
| WalOp.ParseOp | src/wal.rs:443-456 | fails on fewer than 8 bytes; the decoded op has the header's type and consumes its encoded size |
| WalOp.DecodeSet | src/wal.rs:493-517 | the step-by-step decoder computes `ParseSet` |
| WalOp.DecodeSetCas | src/wal.rs:562-593 | the step-by-step decoder computes `ParseSetCas` |
| WalOp.DecodeDelete | src/wal.rs:625-640 | the step-by-step decoder computes `ParseDelete` |
| WalOp.Decode | src/wal.rs:443-456 | the dispatching decoder computes `ParseOp` |
| WalOp.RoundTrip | src/wal.rs:426-456 | decoding an encoding followed by any bytes gives back the op and its encoded size |
| WalOp.TruncatedFails | src/wal.rs:493-640 | every truncation of an encoding fails with ShortBuffer for the first missing field's end |
| WalOp.LongKeyHeader | src/wal.rs:615-617 | a key of exactly 2^32 bytes is encoded with key-len field 0 |
| WalOp.AsShard | src/wal.rs:254-264 | `hash % shards`: in range whenever there is a shard, a panic otherwise |
| WalOp.AsShardCovers | src/wal.rs:254-264 | every shard is reachable |
| DlogEntry.EntryTypeFrom | src/dlog_entry.rs:14-20 | codes 1 and 2 are Term and Client; any other is unreachable |
| DlogEntry.Encoding | src/dlog_entry.rs:172-189 | the entry header followed by the op's encoding |
| DlogEntry.EncodeTerm | src/dlog_entry.rs:242-252 | appends exactly the Term encoding and returns `24 +` the op's size |
| DlogEntry.EncodeClient | src/dlog_entry.rs:285-299 | appends exactly the Client encoding and returns `40 +` the op's size |
| DlogEntry.Encode | src/dlog_entry.rs:172-189 | appends exactly the entry's encoding and returns its size |
| DlogEntry.EntryTypeOf | src/dlog_entry.rs:146-150 | fails on fewer than 8 bytes; the entry type is the low 8 bits of the first word |
| DlogEntry.ParseTerm | src/dlog_entry.rs:254-264 | fails below 24 bytes; term and index from words 1 and 2, then the op |
| DlogEntry.ParseClient | src/dlog_entry.rs:301-315 | fails below 40 bytes; term, index, id and ceqno from words 1 to 4, then the op |
| DlogEntry.ParseEntry | src/dlog_entry.rs:191-225 | fails on fewer than 8 bytes; the decoded entry has the header's type and consumes its encoded size |
| DlogEntry.DecodeTerm | src/dlog_entry.rs:254-264 | the step-by-step decoder computes `ParseTerm` |
| DlogEntry.DecodeClient | src/dlog_entry.rs:301-315 | the step-by-step decoder computes `ParseClient` |
| DlogEntry.Decode | src/dlog_entry.rs:191-225 | the dispatching decoder computes `ParseEntry` |
| DlogEntry.RoundTrip | src/dlog_entry.rs:172-225 | decoding an encoding followed by any bytes gives back the entry and its encoded size |
| DlogEntry.TruncatedFails | src/dlog_entry.rs:254-315 | every truncation fails with ShortBuffer, measured from the op for truncations inside the op |
| DlogEntry.TestSizes | src/dlog_entry.rs:242-315 | the sizes for 4-byte keys and values: 24, 32, 12, 48 and 64 |
| RobtIndx.AsU32 | src/robt_indx.rs:117 | `as u32` is exact below 2^32 and never larger |
| RobtIndx.ShiftOffsets | src/robt_indx.rs:161-163 | the in-place shift succeeds exactly when no offset overflows, adding `adjust` to each |
| RobtIndx.WriteOffsets | src/robt_indx.rs:169-174 | the header loop writes each shifted offset as a big-endian word after the count |
| RobtIndx.Frame | src/robt_indx.rs:454-466 | the header step of `finalize` succeeds exactly when the shifted offsets can be written, giving count, shifted offsets and payload, `4 + 4 * count` bytes longer than the payload |
| RobtIndx.Seal | src/robt_indx.rs:153-185 | succeeds exactly when header and payload fit; the result is count, shifted offsets, payload and zero padding to the block size |
| RobtIndx.FitsSealable | src/robt_indx.rs:153-185 | when header and payload fit, `finalize` cannot fail |
| RobtIndx.MBlock.NewEncode | src/robt_indx.rs:63-70 | an empty m-block of the configured size |
| RobtIndx.MBlock.Reset | src/robt_indx.rs:72-86 | empties the buffers and the first key |
| RobtIndx.MBlock.AsFirstKey | src/robt_indx.rs:88-93 | the first key, panicking when there is none |
| RobtIndx.MBlock.Insert | src/robt_indx.rs:105-151 | below the block size appends the entry, records the old length as offset, returns the count and sets the first key once; otherwise ZBlockOverflow with nothing changed |
| RobtIndx.MBlock.InsertFitting | src/robt_indx.rs:105-151 | the same, with the check corrected to count the header |
| RobtIndx.MBlock.Finalize | src/robt_indx.rs:153-185 | seals the block in place, returns the block size and adds padding and `m_bytes` to the stats |
| RobtIndx.ZBlock.NewEncode | src/robt_indx.rs:353-363 | an empty z-block at the value-log position |
| RobtIndx.ZBlock.Reset | src/robt_indx.rs:365-385 | empties all buffers and the first key and sets `vpos` |
| RobtIndx.ZBlock.AsFirstKey | src/robt_indx.rs:387-392 | the first key, panicking when there is none |
| RobtIndx.ZBlock.Insert | src/robt_indx.rs:404-441 | as the m-block insert, restoring leaf and blob on overflow but keeping the pushed descriptor |
| RobtIndx.ZBlock.InsertFitting | src/robt_indx.rs:404-441 | the same, with the check corrected to count the header |
| RobtIndx.ZBlock.Finalize | src/robt_indx.rs:443-477 | succeeds exactly when the header can be written and the block, after `encode_fpos` has patched each descriptor's value-log position into it, fits the block size; the leaf becomes that patched block plus zero padding, the offsets are shifted, block size and blob length are returned and padding, `z_bytes` and `v_bytes` counted; a block filled within its size never fails when the patches keep its length |
| RobtIndx.ApplyFpos | src/robt_indx.rs:468 | the descriptor loop applies `encode_fpos` once per descriptor, in descriptor order, to the block as left by the previous patch |
| RobtIndx.PatchFposLength | src/robt_indx.rs:468 | patches that overwrite in place leave the block's length unchanged whatever the descriptors |
| RobtIndx.ZSealedPlain | src/robt_indx.rs:443-477 | with length-keeping patches a z-block finalizes exactly when the plain block layout fits, and with no descriptors it is the plain sealed block |
| RobtIndx.AcceptedEntryBreaksFinalize | src/robt_indx.rs:105-185 | a 16-byte m-block accepts a 10-byte entry and then `finalize` panics |
| RobtIndx.NewDecode | src/robt_indx.rs:203-219 | count from the first 4 bytes, `adjust = 4 + 4 * count`, offsets up to `adjust` and entries after |
| RobtIndx.ToEntry | src/robt_indx.rs:267-287 | an index at or past the count gives MBlockExhausted or ZBlockExhausted |
| RobtIndx.FindPivot | src/robt_indx.rs:247-265 | an Included upper bound panics; it succeeds exactly when the start is at most the end and, for a z-block whose width is not 1, that width fits `isize`; a width of 1 gives 0, otherwise half the width, rounded down |
| RobtIndx.DecodeSealed | src/robt_indx.rs:203-219 | decoding a finalized block gives back its count, shifted offsets and padded payload |
| RobtIndx.FirstEntrySealed | src/robt_indx.rs:267-287 | the first entry of a finalized block is its payload onwards |
| RobtBuild.BuildData.New | src/robt_build.rs:243-255 | one empty m-block on the stack, all positions 0, `vlog_fpos = n_abytes` |
| RobtBuild.BuildData.UpdateZFlush | src/robt_build.rs:257-260 | adds the bytes to `fpos` and `vlog_fpos` and changes nothing else |
| RobtBuild.BuildData.UpdateMFlush | src/robt_build.rs:262-265 | `m_fpos` becomes the old `fpos`, then `fpos` advances |
| RobtBuild.BuildData.Reset | src/robt_build.rs:267-271 | `z_fpos = m_fpos = fpos` and the z-block reset at `vlog_fpos` |
| RobtBuild.Builder.Initial | src/robt_build.rs:34-51 | a builder with zero statistics and empty outputs |
| RobtBuild.Builder.Incremental | src/robt_build.rs:53-75 | as `initial`, with `n_abytes` the length of the existing value log |
| RobtBuild.Builder.PreprocessEntry | src/robt_build.rs:203-206 | `stats.seqno` becomes the running maximum; returns whether `purge_values` drops the entry and the entry as the purge leaves it, which the build goes on with |
| RobtBuild.Builder.PostprocessEntry | src/robt_build.rs:208-213 | `n_count` + 1, `n_deleted` + 1 exactly for a deleted entry |
| RobtBuild.Builder.FlushM | src/robt_build.rs:157-159 | succeeds exactly when the block can be finalized; the index continues with the sealed block of `m_blocksize` bytes, one more m-block is counted, `m_fpos` becomes the old `fpos` and `fpos` advances by the block size; the stack and its top two blocks are untouched |
| RobtBuild.Builder.FlushZ | src/robt_build.rs:92-94 | succeeds exactly when the z-block can be finalized; the index continues with the finished, position-patched block of `z_blocksize` bytes and the value log with its blob, `fpos` and `vlog_fpos` advance and the stats count the bytes; the m-block stack is untouched |
| RobtBuild.Builder.InsertMs | src/robt_build.rs:144-166 | `key`, encoded with `m_fpos`, is appended to the top m-block when it has room, with stack, index, stats and `fpos` unchanged; otherwise that block is finalized and its sealed bytes continue the index, its first key is promoted into the block below (recursively) and it is reset to hold `key` alone; an empty stack gets a fresh root block holding `key`; the index grows by whole flushed m-blocks |
| RobtBuild.Builder.NewRoot | src/robt_build.rs:150-154 | on an empty stack a new m-block holding `key` alone becomes the only block, failing exactly when that entry and its header do not fit |
| RobtBuild.Builder.PromoteTop | src/robt_build.rs:145-165 | the non-empty stack case shared by `insertms` and the z-key promotion: the top block takes `key` when it has room, with stack, index, stats and `fpos` unchanged, and otherwise spills as in `Spill`; reports whether it spilled; the top block stays the same object |
| RobtBuild.Builder.InsertTop | src/robt_build.rs:145-165 | the popped block takes `key` when it has room, nothing else changing; otherwise the index continues with that block sealed, its first key is promoted into the block below, and it holds `key` alone; either way it goes back on top of the stack |
| RobtBuild.Builder.Spill | src/robt_build.rs:156-163 | the index continues with the full block sealed, the promoted first key is taken by the block below it, and the block is reset to hold `key` alone; the index grows only by whole m-blocks |
| RobtBuild.Builder.FlushUp | src/robt_build.rs:156-160 | the block is finalized and its sealed bytes continue the index, at least one more m-block is counted, and its first key, encoded with the new `m_fpos`, is taken by the block below it |
| RobtBuild.Builder.Refill | src/robt_build.rs:161-162 | the reset block holds `key` alone, failing exactly when that entry and its header do not fit; the stack is untouched |
| RobtBuild.Builder.PromoteZ | src/robt_build.rs:95-105 | the flushed z-block's first key, encoded with `z_fpos`, is appended to the top m-block when it has room, with nothing else changed; otherwise the index continues with that m-block sealed, its first key goes a level up and it holds the z-key alone; reports whether it spilled; an empty stack or a z-block without a first key panics |
| RobtBuild.Builder.Finalize1 | src/robt_build.rs:168-187 | a z-block without a first key changes nothing; otherwise the index continues with the finished z-block and its first key is promoted into the top m-block as in `PromoteZ`; index and value log grow by exactly the bytes counted |
| RobtBuild.Builder.Finalize2 | src/robt_build.rs:189-201 | flushes the m-blocks until the stack is empty; the first block the index continues with is the old top block sealed; when every block holds a key, at least one block per level is flushed and the index grows by at least that many m-blocks, and exactly by the m-bytes counted |
| RobtBuild.Builder.FlushPass | src/robt_build.rs:190-198 | one pass of the corrected loop: a popped block with a first key is sealed onto the index and its key promoted, a block without one is dropped with the index unchanged |
| RobtBuild.Builder.RoundPass | src/robt_build.rs:190-198 | one pass of the loop as written: the keyed top block is sealed onto the index and its key promoted, leaving a keyed block on top |
| RobtBuild.Builder.Finalize2Rounds | src/robt_build.rs:189-201 | after any number of passes of the loop as written, the stack still has a keyed block on top and the index has grown by at least one m-block per pass |
| RobtBuild.KeptExactly | src/robt_build.rs:83-87 | an entry is kept exactly when it is the purged form of a stream entry that the purge does not drop |
| RobtBuild.KeptAll | src/robt_build.rs:215-219 | without `tomb_purge` every entry is kept, unchanged and in order |
| RobtBuild.MaxSeqnoIsMax | src/robt_build.rs:204 | the running seqno is the maximum of the start and every entry's seqno |
| RobtBuild.Builder.AddEntry | src/robt_build.rs:84-110 | a dropped entry changes nothing but the counters; a kept entry, encoded after the purge, is appended to the z-block when it has room, with stack and value log unchanged; otherwise the index continues with the old z-block sealed (its first key promoted) and the reset z-block holds the entry alone; the counts follow pre- and post-processing and the outputs only grow |
| RobtBuild.Builder.FlushPromote | src/robt_build.rs:92-104 | flushing the full z-block and promoting its key only appends to the outputs, changes only the byte counters of the stats, and keeps `fpos` in step with the index |
| RobtBuild.Builder.OverflowZ | src/robt_build.rs:91-106 | the overflow branch: the index continues with the full z-block sealed, its first key is promoted into the top m-block as in `PromoteZ`, and the reset z-block, at the value-log position, holds exactly the entry's encoding; the outputs only grow and `fpos` stays in step with the index |
| RobtBuild.Builder.ZRefill | src/robt_build.rs:105-106 | after `BuildData::reset` the z-block holds the entry's encoding alone at the value-log position, failing exactly when that entry and its header do not fit; `z_fpos` and `m_fpos` are the old `fpos` |
| RobtBuild.Builder.KeepEntry | src/robt_build.rs:89-107 | the z-block takes the entry when it has room, nothing else changing; otherwise the index continues with the old z-block sealed, with the entry's descriptor, and the entry goes into the reset block |
| RobtBuild.Builder.AddEntries | src/robt_build.rs:83-111 | the loop counts exactly the kept entries, and the index and value log grow by exactly the counted bytes; a stream whose entries are all `Ok` and all dropped always succeeds |
| RobtBuild.Builder.Build | src/robt_build.rs:77-142 | a successful build consumed only `Ok` entries, counted exactly the kept ones, flushed nothing when none was kept, and the stats text, counted in UTF-8 bytes, fits an m-block with its 8-byte length word; when every entry is dropped it succeeds exactly when that stats text fits, and writes no block |
| RobtBuild.Builder.FlushPartial | src/robt_build.rs:114-117 | `finalize1` then `finalize2`: the outputs only grow, the stack ends empty and only the byte counters of the stats change |
| RobtBuild.AllPurgedKeepsNone | src/robt_build.rs:83-87 | when the purge drops every entry of an all-`Ok` stream, no entry is kept |
| BubtConfig.New | src/bubt_config.rs:67-79 | 4096-byte blocks, no tombstone purge, no value log |
| BubtConfig.SetBlocksize | src/bubt_config.rs:81-86 | sets the three block sizes and nothing else |
| BubtConfig.SetTombstonePurge | src/bubt_config.rs:88-91 | sets `Some(before)` and nothing else |
| BubtConfig.SetVlog | src/bubt_config.rs:93-102 | turns on the value log with the given file and flag, nothing else |
| BubtConfig.BuildersCommute | src/bubt_config.rs:81-102 | the three builders touch disjoint fields, so they commute |
| BubtConfig.FromStats | src/bubt_config.rs:125-137 | copies name, block sizes and value-log settings; `dir` empty and no purge |
| BubtConfig.Push | src/bubt_config.rs:104-108 | the directory, at most one separator, then the file name |
| BubtConfig.PushInjective | src/bubt_config.rs:104-108 | different file names give different paths under one directory |
| BubtConfig.IndexFile | src/bubt_config.rs:104-108 | the directory followed by `bubt-{name}.indx` |
| BubtConfig.VlogFile | src/bubt_config.rs:110-114 | the directory followed by `bubt-{name}.vlog` |
| BubtConfig.VlogFileW | src/bubt_config.rs:116-121 | the configured value-log file if any, else the default name |
| BubtConfig.IndexIsNotVlog | src/bubt_config.rs:104-114 | an index file is never a value-log file |
| BubtConfig.IndexFileInjective | src/bubt_config.rs:104-108 | different names give different index files |
| BubtConfig.MarkerBlock | src/bubt_config.rs:18-24 | 4096 bytes, each 0xAB |
| BubtConfig.MetaRegionSize | src/bubt_config.rs:226-227 | the metadata region is greater than `mdlen + 8` and at most one block more |
| BubtConfig.MetaRegionBlocks | src/bubt_config.rs:226-227 | it is `((mdlen + 8) / 4096 + 1) * 4096` |
| BubtConfig.ReadAt | src/bubt_config.rs:205-209 | a read returns at most the wanted bytes, from the file at that position |
| BubtConfig.MetaLength | src/bubt_config.rs:218-225 | the big-endian word in the 8 bytes before the marker |
| BubtConfig.MetadataBefore | src/bubt_config.rs:217-241 | the metadata region ends at the marker, holds the metadata first and its length in its last word |
| BubtConfig.StatsAt | src/bubt_config.rs:243-257 | the 4096 bytes before the metadata: a length word, then that many bytes of UTF-8 |
| BubtConfig.MetaItems | src/bubt_config.rs:196-265 | exactly [Marker, Metadata, Stats, Root], the marker the last 4096 bytes, Root two blocks below the metadata region |
| BubtConfig.ItemsAfterMarker | src/bubt_config.rs:217-264 | the items read below the marker, with Root placed below metadata and stats |
| BubtConfig.ItemsAfterMetadata | src/bubt_config.rs:243-264 | the stats item and `Root = stats_start - 4096`, completing the four items |
| BubtConfig.ReadMetaItems | src/bubt_config.rs:196-265 | the step-by-step reader computes `MetaItems` |
| BubtConfig.ReadStatsAndRoot | src/bubt_config.rs:243-264 | the step-by-step tail computes `ItemsAfterMetadata` |
| BubtConfig.ReadLayout | src/bubt_config.rs:196-265 | a file of tree, stats block, metadata blocks and marker reads back as exactly those items and the root |
| BubtConfig.ReadTrailer | src/bubt_config.rs:196-265 | the trailer the model writes after a tree reads back as marker, metadata, stats and the root block's position |

## Left out

- Footprints are left out. `mem::size_of` is platform-specific, so the `isize` that `prepend_version` and `delete` return is not modelled.
- Memory management is left out. The `ManuallyDrop`/`AtomicBool` reclaim flags and the unsafe `mvcc_clone`/`Drop` code are not modelled, and `Value` is a plain datatype.
- `fetch_value` and `fetch_deltas` read the value log from a file. The model has only the `Reference` form they replace.
- Delta accessors that only unwrap (`to_diff`, `into_upserted`) and the entry getters are not modelled. They appear as field reads.
- Trait plumbing is not modelled: `Index`, `Reader`, `Writer`, the factories, `CommitIter` and the piece-wise scan. They have no logic of their own here.
- Tree iteration (`iter`, `range`, `reverse`) is not modelled. It depends on `llrb_common.rs`, which is not part of this model. The expected iteration order is given by the oracle's `Range` and `Reverse`.
- The `Node` internals of `llrb_node.rs` are not part of this model.
  - A node's `prepend_version` and `delete` are taken to be the entry's own, with their results ignored as at the call sites.
  - The tree's `validate` and `stats` are stated as the invariant `Llrb23` plus `SearchTree` that `Llrb.Valid` keeps. This invariant is the 2-3 form of the rules `validate` checks.
- `Llrb` clone and drop and the `id` and `get_seqno` getters are not modelled.
- The WAL plumbing is not modelled: `Wal` shard threads, `purge_till`, `purge`, `close`, `to_writer`, `replay` and `is_active`. These are threads, files and journals. The hasher is foreign: the shard hash is a `u64` parameter.
- `util::check_remaining` is not part of this model. `Common.CheckRemaining` stands for it, failing exactly when fewer bytes remain than wanted.
- The `try_into` conversions between `u64` and `usize` are treated as lossless, because a 64-bit target is assumed.
- WalOp.RoundTrip: requires the key to be shorter than 2^32 bytes. A key of exactly 2^32 bytes overflows the 32-bit key-len field into the op type, as `WalOp.LongKeyHeader` shows.
- DlogEntry.Decode: takes the defined reading of `dlog_entry.rs`'s `Entry::decode` and `Op::decode`. Both build their placeholder from `unsafe { mem::zeroed() }` values before decoding into them. A zeroed `Vec<u8>` is undefined behaviour in Rust, so the model follows the `Default::default()` version of `wal.rs` instead. The same holds for `WalOp.Decode` when it is read as `dlog_entry.rs`'s copy.
- Core.PurgeBeforeKeepsFrom: proved only for versions with positive seqnos (the seqno counters of the indexes start at 1). With start bound `Excluded(0)`, `filter_within` purges with `Lsm(Included(0))`, which `purge` short-cuts to keep everything, so a seqno-0 version before the window survives (`Core.ZeroSeqnoKept`).
- Core.FilterWithin: the window property is proved only for positive seqnos, for the same reason as `Core.PurgeBeforeKeepsFrom`.
- `Entry::to_index` and `into_op` are left out. In the model they are field reads (`index`, `op`).
- The B-tree search functions `MBlock::find` and `ZBlock::find`, and the slicing in `to_key` and `to_entry`, are not modelled, so no claim is made about search. Only `find_pivot`, the header decode and the exhaustion bound are.
- RobtIndx.ToEntry: states the exhaustion error and that a result is a suffix of the entries, not which suffix.
- The entry encoders `DiskEntryM` and `DiskEntryZ` belong to `robt_entry.rs`, which is not part of this model. They are parameters returning byte sequences. `DiskEntryZ::encode_fpos` is the parameter `encodeFpos` of `ZBlock.Finalize`, and `KeepsLength` states that it patches in place.
- The flushers are not modelled: `Flusher`, `flush_thread`, `flush_write_data` and `close_wait` are a channel to a writer thread. In the model they are the byte sequences sent (`index`, `vlog`).
- The build time and epoch come from the clock and are not modelled. `Stats::to_string` is the parameter `render`, which gives the string's UTF-8 bytes.
- `robt_config::write_meta_items`, which `build` calls, is not part of this model. The writer in `bubt_config.rs` is commented out.
  - `Trailer` is therefore this model's own layout: a stats block padded to 4096 bytes, the metadata blocks, then the marker.
  - `ReadTrailer` proves that this layout reads back.
  - The commented-out writer would not pad the stats block, so its output would not read back.
- RobtBuild.Builder.Build: does not model the trailer write. Its contract covers the entries, the counters and the blocks, not the meta items.
- RobtBuild.Builder.Finalize2: models `finalize2` with the loop corrected to end at the root (see Findings). The source's loop never empties the stack. The model is bounded by a `fuel` pass count and reports UnReachable if the fuel runs out, so it does not prove termination itself. `Finalize2Rounds` models the loop as written.
- RobtBuild.Builder.InsertMs: inserts with the corrected check `MBlock.InsertFitting` (see Findings), not `insertm`. The source's `insertm` also accepts a key whose header then does not fit, and the later `finalize` of that block panics.
- RobtBuild.Builder.PromoteZ: inserts with `MBlock.InsertFitting` in place of `insertz`, for the same reason as `InsertMs`.
- RobtBuild.Builder.Finalize1: promotes through `PromoteZ`, so it too uses the corrected check.
- RobtBuild.Builder.AddEntry: inserts with `ZBlock.InsertFitting` in place of `ZBlock::insert`. With `z_blocksize` 24, the source's `insert` accepts two 10-byte entries (20 < 24), and `finalize` then needs 32 bytes and panics. The model overflows to a new z-block instead.
- RobtBuild.Builder.AddEntries: states the build loop with the corrected inserts of `AddEntry`.
- RobtBuild.Builder.Build: states a build with both corrections (the inserts of `AddEntry` and the ending loop of `Finalize2`). The source's build with any kept entry never leaves `finalize2`.
- RobtBuild.Builder.Finalize2: the lower bound of one flushed block per level is stated only when every block on the stack holds a first key. A block without one is popped and dropped unflushed (src/robt_build.rs:191), which only the empty m-block of a fresh `BuildData` can be.
- RobtBuild.Builder.Build: states exactly when a build succeeds only when every entry is dropped. Otherwise success depends on how the entry encoders' sizes compare with the block sizes, and the contract states what a successful build did.
- RobtBuild.Builder.AddEntries: ties each entry to the z-block through `AddEntry`, but does not state the index of the whole stream as a function of the entries.
- The builder's `purge_values` calls `entry.purge(before)` as a boolean, from another API generation than `Entry::purge` in `core.rs`. It is the parameter `purge`, which gives whether the entry is dropped and the entry as it is left, since `purge` works on the entry in place.
- `bubt_stats.rs`, `robt_stats.rs`, `robt_config.rs` and `util.rs` are not part of this model. The configuration's `Display` is not modelled.
- File access errors are not modelled: `open_file_r`, `fs::metadata` and `seek`. `read_meta_items` takes the file's bytes, and `got` gives the count each `read` returns.
- BubtConfig.Push: models joining with `/` only (`path::PathBuf::push` on Unix). Windows separators and absolute file names are not modelled.

## Findings

| source | as written | input that shows it | evidently intended | confidence | as-written member | corrected member |
|---|---|---|---|---|---|---|
| src/robt_indx.rs:105-185 | `insertm`/`insertz` accept an entry when the payload alone is below the block size, but `finalize` then adds a header of `4 + 4 * count` bytes and computes `blocksize - len` | a 16-byte m-block and one 10-byte entry: accepted, then `finalize` subtracts 18 from 16 | accept only when header and payload together fit, so `finalize` always succeeds | not executed | RobtIndx.AcceptedEntryBreaksFinalize | RobtIndx.MBlock.InsertFitting |
| src/robt_build.rs:189-201 | `finalize2` pops a block with a first key, flushes it and promotes that key with `insertms`, which always pushes back a block holding a key, a new root too | any build with at least one entry: the loop never finds the stack empty | stop promoting once the root has been flushed, so the stack empties | not executed | RobtBuild.Builder.Finalize2Rounds | RobtBuild.Builder.Finalize2 |
