# sabiDB in Dafny

This project models the storage crate of sabiDB and the part of its SQL crate that decides what a
statement means, and proves properties of both. It verifies with Dafny 4.11 (`dafny verify dfyconfig.toml`).

| files | what they model |
|---|---|
| `Wrappers`, `Bytes`, `Nodes`, `TxIds` | results, little-endian integers, the order of byte strings, tree nodes, transaction ids |
| `TreeShape`, `TreeOrder`, `Entries`, `TreeEntries`, `TreeSteps` | the B+Tree invariant in three layers (who points to whom; sorted and bounded; contents) and what each step of an insert keeps |
| `BTrees`, `TreeRuns`, `FanOut` | the tree over pages, whole runs against a plain map, the height bound |
| `RawTrees` | the tree insert exactly as written, and how many keys it can hold |
| `Pages`, `PageFiles`, `NodeCodec`, `ParentBytes`, `StaleParents` | page and node bytes, the page file, and what the two parent-pointer defects do |
| `Mvcc`, `MvccHistory`, `MvccDiscipline`, `TxManager`, `TxInterleaving` | version chains, whole histories, a discipline that makes them readable, the transaction manager, and `begin` under every interleaving |
| `WalRecords`, `WalFraming`, `WalReplay` | log records, frames, reading a log cut anywhere, replay |
| `VersionCodec`, `CompositeKeys`, `EngineData`, `Engines`, `EngineRuns` | the engine: chains in pages, index keys, both copies of every chain, whole histories on disk |
| `SqlValues`, `Utf8Texts`, `Exprs`, `ExprLaws`, `RowCodec`, `RowKeys`, `Plans`, `Sessions` | values, evaluation and typing, what the operators compute, row bytes, row keys, SELECT plans, transaction control |
| `Layouts` | the bytes of small examples, which fix the formats that the round trips leave open |

A tree is a class over a page file. Its ghost state is the map of nodes the pages decode to and an
outline (height, slot and key interval of every node, and the leaf chain). The shape layer never
looks at the order of keys, so it holds after inserts of any key; order and sortedness hold for keys
that are not there yet. Key intervals are kept as numbers in [0, 1), into which byte strings embed
with their order (`Bytes.RankOrder`).

Panics of the original (slices out of range, missing values, division by zero) are the error
`InternalError`. Integers are unbounded except where a width matters: page ids are 64 bits, lengths
and SQL integers are stored in their fixed widths, and SQL arithmetic wraps as in a release build.

## Where the model departs from the code

The code is followed branch by branch. Where following it would make the rest of the model
pointless, the repaired step is modelled beside the original one, and a lemma says exactly when the
original is right.

- **`set_parent`** (btree.rs:493-515, 824-828) patches nine bytes over a link that takes one byte when
  it is absent. `PageFile.PatchParent` is the code; `ParentBytes.PatchIsSetParentExactly` says when
  it is right, `ParentBytes.FirstSplitAsWritten` what happens at the first split. `RawTrees` is the
  whole insert as written: a run into a new file stands for its pairs if and only if it has at most
  128 keys. `BTrees` uses `PageFile.SetParent`, which decodes, sets the parent and encodes.
- **`split_internal`** (btree.rs:721-740) does not tell the moved children about their new parent.
  `StaleParents` says exactly when that goes wrong and where the next split then lands; `RawTrees`
  does as the code does, `BTrees` calls `AdoptAll`.
- **Inserting a key that is there** stores a second pair (btree.rs:797-806). `BTree.Insert` does so too:
  its contract says that the tree stays ordered if and only if the key was absent. `BTree.Upsert` is
  the overwriting insert that the engine's comment expects (engine.rs:62-70).
- **The engine** has `Insert` and `Delete` as written, with the exact condition under which memory and
  disk still agree, and `InsertRepaired` and `DeleteRepaired`, where they always do. Its index is the
  repaired tree throughout. Up to 128 rows that tree never splits and writes the bytes of the code
  (`RawTrees.InsertBoth`), which is why `EngineRuns.HistoryAsWritten` stops there.
- **`WalReader::open`** reads the version one byte early and rejects every file (`NothingOpens`); the
  reading and replay theorems start behind the header.
- **Log ids** are written in one byte order and read in another (wal.rs:305, 363); the model has the
  permutation, and replay commutes with it.
- **Snapshots** are the transaction begun before, committed or not, and ids order by milliseconds
  only (mvcc.rs:148-158, tx.rs:17-27). Histories assume ids whose stamps increase strictly;
  `TxIds.DistinctIdsCanTie` and `MvccHistory.TiesUnsettleReads` show why.
- **`deserialize_row`** stays on the byte of a Boolean. The codec takes the size of a Boolean as a
  parameter: 0 is the code, 1 the repair. `RowRoundTripExactly` is the exact condition for the code.
- **Full scans** of the executor pass empty bounds, and tables without a primary key get an empty key
  list; `RowKeys.FullScanSeesRowExactly` says what a scan can see as a result.

Where code and comments disagree the model follows the code: the engine's note that aborted records
are ignored on replay holds only for transactions without a commit record (`AbortedGoneExactly`), and
the comment that the index points to the newest page holds only for keys written once.

## Model

| member | source | states |
|---|---|---|
| `BTrees.BTree.New` | sabi/crates/sabi-storage/src/btree.rs:527-544 | A new tree is one empty leaf: the whole invariant holds, it is ordered, and its pages are disjoint from whatever the file held. It fails only on a full file. |
| `BTrees.BTree.Insert` | sabi/crates/sabi-storage/src/btree.rs:603-626 | Logs first. Any key: the shape (fan-out, parents, depth, leaf chain, fresh pages) holds after any cascade of splits and the contents grow by exactly the pair. From an ordered tree the pair goes to its sorted place, and the tree stays ordered if and only if the key was absent. With keys of at most 21 bytes it succeeds unless the file is full; while the root is a leaf with room it succeeds if and only if the grown leaf fits its page. |
| `BTrees.BTree.SplitLeaf` | sabi/crates/sabi-storage/src/btree.rs:628-662 | The upper half moves to a fresh leaf linked behind; contents unchanged; shape and order restored through the parents. With short keys it fails only on a full file. |
| `BTrees.BTree.InsertIntoParent` | sabi/crates/sabi-storage/src/btree.rs:664-702 | The new node is listed right behind the node it was split from; recursion terminates because the distance to the root shrinks; contents unchanged. |
| `BTrees.BTree.SplitInternal` | sabi/crates/sabi-storage/src/btree.rs:704-742 | The middle key moves up, the keys behind it and their children move to a fresh node and, unlike in the code, the moved children name it as their parent; contents unchanged. |
| `BTrees.BTree.AdoptAll` | sabi/crates/sabi-storage/src/btree.rs:721-740 | Re-parents every moved child and nothing else (the step the code lacks). |
| `BTrees.BTree.NewRoot` | sabi/crates/sabi-storage/src/btree.rs:744-774 | The tree grows by one level: the two halves are the children of a fresh root and, unlike in the code, get their parent by decode and encode; contents unchanged. With short keys it fails only on a full file. |
| `BTrees.BTree.FindLeaf` | sabi/crates/sabi-storage/src/btree.rs:776-789 | Ends at a leaf of the chain; in an ordered tree at the one leaf whose key interval holds the key. |
| `BTrees.BTree.Get` | sabi/crates/sabi-storage/src/btree.rs:546-570 | Reads exactly height + 1 pages, never invents a pair, and in an ordered tree answers as a first-match lookup over all pairs. |
| `BTrees.BTree.Range` | sabi/crates/sabi-storage/src/btree.rs:572-601 | Follows the leaf chain to its end; in an ordered tree returns exactly the pairs with start <= key <= end in order, in any tree only such pairs. |
| `BTrees.BTree.Put` | sabi/crates/sabi-storage/src/btree.rs:813-817 | One node is written and nothing else changes; the node is read back as written. |
| `BTrees.BTree.Adopt` | sabi/crates/sabi-storage/src/btree.rs:824-828 | One node gets a parent and nothing else changes. |
| `BTrees.BTree.Upsert` | sabi/crates/sabi-storage/src/engine.rs:62-70 | An insert that replaces the page id of a key that is already indexed, as the comment of the engine expects of its index. With short keys it fails only on a full file. |
| `TreeRuns.InsertAll` | sabi/crates/sabi-storage/src/btree.rs:527-626 | From a new tree, any run of inserts with distinct keys stands for exactly the inserted pairs; with keys of at most 21 bytes it succeeds unless the file ends up full. |
| `TreeRuns.RunIsMap` | sabi/crates/sabi-storage/src/btree.rs:546-626 | After such a run the pairs are strictly ascending and every lookup answers as a plain map of the inserted pairs. |
| `FanOut.HeightBound` | sabi/crates/sabi-storage/src/btree.rs:618-660 | A tree with h internal levels holds at least 2 * 64 * 65^(h-1) pairs. |
| `TreeShape.WithEntryKeepsShape` | sabi/crates/sabi-storage/src/btree.rs:609-623 | Adding a pair to a leaf, whatever the key, keeps every parent, level, link and fan-out bound, up to one key too many in that leaf. |
| `TreeShape.SplitLeafKeepsShape` | sabi/crates/sabi-storage/src/btree.rs:628-662 | Splitting a leaf keeps every node but leaves the new one unlisted; the leaf chain visits every leaf once. |
| `TreeShape.AddChildKeepsShape` | sabi/crates/sabi-storage/src/btree.rs:676-691 | Listing the new node behind its sibling completes the split. |
| `TreeShape.SplitInternalKeepsShape` | sabi/crates/sabi-storage/src/btree.rs:704-742 | The same for internal nodes, moved children included. |
| `TreeShape.NewRootKeepsShape` | sabi/crates/sabi-storage/src/btree.rs:744-774 | The same for a split of the root. |
| `TreeOrder.WithEntryKeepsOrder` | sabi/crates/sabi-storage/src/btree.rs:797-806 | A fresh key put where find_child says keeps the leaf strictly sorted and inside its interval. |
| `TreeOrder.FindChildIsSlot` | sabi/crates/sabi-storage/src/btree.rs:684-688 | find_child on the promoted key gives the slot right behind the child that was split. |
| `TreeOrder.SplitLeafKeepsOrder` | sabi/crates/sabi-storage/src/btree.rs:628-662 | Both halves lie in the two intervals that the promoted key separates. |
| `TreeOrder.AddChildKeepsOrder` | sabi/crates/sabi-storage/src/btree.rs:684-691 | The new separator bounds both subtrees beside it. |
| `TreeOrder.SplitInternalKeepsOrder` | sabi/crates/sabi-storage/src/btree.rs:704-742 | Separators bound every subtree on both sides after an internal split. |
| `TreeOrder.NewRootKeepsOrder` | sabi/crates/sabi-storage/src/btree.rs:744-774 | The new root's one key separates its two subtrees. |
| `TreeSteps.WithEntryStep` | sabi/crates/sabi-storage/src/btree.rs:609-623 | One insertion into a leaf: shape, order and contents at once; contents grow by one pair even for a duplicate key. |
| `TreeSteps.WithValueStep` | sabi/crates/sabi-storage/src/engine.rs:62-70 | Replacing a value in its leaf replaces it in the contents and disturbs nothing else. |
| `TreeSteps.SplitLeafStep` | sabi/crates/sabi-storage/src/btree.rs:628-662 | A leaf split leaves the contents of the whole tree unchanged. |
| `TreeSteps.AddChildStep` | sabi/crates/sabi-storage/src/btree.rs:664-702 | Listing a node leaves contents and heights unchanged and the tree ordered. |
| `TreeSteps.SplitInternalStep` | sabi/crates/sabi-storage/src/btree.rs:704-742 | An internal split leaves contents and heights unchanged and the tree ordered. |
| `TreeSteps.NewRootStep` | sabi/crates/sabi-storage/src/btree.rs:744-774 | Root growth leaves the contents unchanged and the tree ordered; it is the sum of its three writes. |
| `TreeEntries.EntriesAscend` | sabi/crates/sabi-storage/src/btree.rs:572-601 | The pairs along the leaf chain of an ordered tree are strictly ascending. |
| `TreeEntries.LookupInLeaf` | sabi/crates/sabi-storage/src/btree.rs:546-570 | The leaf whose interval holds a key decides every lookup of it. |
| `TreeEntries.WithEntryInserts` | sabi/crates/sabi-storage/src/btree.rs:797-806 | In an ordered tree the new pair takes its sorted place among all pairs. |
| `Entries.LookupInsert` | sabi/crates/sabi-storage/src/btree.rs:603-626 | Inserting a fresh key changes one answer and no other. |
| `Entries.LookupInsertDuplicate` | sabi/crates/sabi-storage/src/btree.rs:797-806 | Inserting a key that is there changes no answer at all. |
| `Entries.InsertOverwritesExactly` | sabi/crates/sabi-storage/src/engine.rs:62-70 | After an insert the key answers with the new value if and only if it was absent or had that value already. |
| `Entries.DuplicateBreaksOrder` | sabi/crates/sabi-storage/src/btree.rs:797-806 | A second pair for a key spoils the strict order. |
| `Entries.LookupOverwritten` | sabi/crates/sabi-storage/src/engine.rs:62-70 | Overwriting changes one answer and no other. |
| `Entries.RangeIsExact` | sabi/crates/sabi-storage/src/btree.rs:572-601 | A range over ascending pairs holds each qualifying pair once, ascending, and nothing else. |
| `Nodes.FindChild` | sabi/crates/sabi-storage/src/btree.rs:791-795 | The position of the first key above the given one. |
| `Bytes.RankOrder` | sabi/crates/sabi-storage/src/btree.rs:791-795 | The ranks used by the proofs embed the lexicographic order of keys exactly. |
| `ParentBytes.ReadParentAgrees` | sabi/crates/sabi-storage/src/btree.rs:469-491 | Reading the parent from the bytes agrees with decoding the node. |
| `ParentBytes.PatchIsSetParentExactly` | sabi/crates/sabi-storage/src/btree.rs:493-515 | set_parent as written stores the parent and changes nothing else if and only if a parent is there already or the node is an empty leaf without a successor. |
| `ParentBytes.PatchScramblesKeys` | sabi/crates/sabi-storage/src/btree.rs:493-515 | Over a node without a parent and without a next pointer no patched payload holds the keys. |
| `ParentBytes.PatchDropsNext` | sabi/crates/sabi-storage/src/btree.rs:493-515 | Over a leaf without a parent but with a next pointer the patch keeps the records and loses the pointer. |
| `ParentBytes.FirstSplitAsWritten` | sabi/crates/sabi-storage/src/btree.rs:744-774 | As written the first split of a tree leaves a left leaf without its successor and a right leaf that is not read back as it was written. |
| `ParentBytes.PatchLosesKey` | sabi/crates/sabi-storage/src/btree.rs:493-515 | Of distinct keys in a leaf without parent and next pointer, at least one is not among the keys the patched leaf decodes to. |
| `RawTrees.RawTree.Insert` | sabi/crates/sabi-storage/src/btree.rs:603-626 | The insert as written, patches included: a leaf that is the whole tree takes the pair as long as it has room, and a key that is lost stays lost whatever is inserted, through any further splits. |
| `RawTrees.RawTree.NewRoot` | sabi/crates/sabi-storage/src/btree.rs:744-774 | new_root as written is two patches and one write; a lost key stays lost. |
| `RawTrees.RawTree.SplitInternal` | sabi/crates/sabi-storage/src/btree.rs:704-742 | split_internal as written, without telling any child; a lost key stays lost. |
| `RawTrees.FirstSplitLoses` | sabi/crates/sabi-storage/src/btree.rs:628-774 | The first split as written loses a key for good: no leaf of the file has it any more. |
| `RawTrees.LostIsNotFound` | sabi/crates/sabi-storage/src/btree.rs:546-570 | A lost key is never found, wherever in the file a search starts and however long it runs. |
| `RawTrees.InsertAll` | sabi/crates/sabi-storage/src/btree.rs:527-774 | As written, a run of n distinct short keys into a new file succeeds and stands for the map of the inserted pairs if and only if n <= 128. |
| `RawTrees.InsertBoth` | sabi/crates/sabi-storage/src/btree.rs:603-626 | Up to the first split the repaired tree and the tree as written give the same answers and write the same bytes. |
| `StaleParents.AgreeExactlyWithoutSplit` | sabi/crates/sabi-storage/src/btree.rs:704-742 | As written, right after the new child went into its parent, and before the recursion goes on to the grandparent, stored parents agree with the child lists if and only if the parent did not overflow. |
| `StaleParents.MovedChildIsStale` | sabi/crates/sabi-storage/src/btree.rs:721-740 | As written every moved child still names the left node. |
| `StaleParents.StaleSplitLandsLeft` | sabi/crates/sabi-storage/src/btree.rs:664-691 | A later split of such a child is appended to the left node although searches for its keys go right of it. |
| `NodeCodec.SerializeNode` | sabi/crates/sabi-storage/src/btree.rs:389-466 | The payload of a node is its encoding. |
| `NodeCodec.DeserializeNode` | sabi/crates/sabi-storage/src/btree.rs:227-388 | Decoding a payload record by record gives the decoding of the whole, errors included. |
| `NodeCodec.NodeRoundTrip` | sabi/crates/sabi-storage/src/btree.rs:227-466 | Whatever node is written, with or without parent and next pointer, reading its payload gives it back. |
| `NodeCodec.RecordsAreTheirBytes` | sabi/crates/sabi-storage/src/btree.rs:281-319 | Keys and page ids are decoded exactly where their records stand, whatever follows; anything else is an error. |
| `Pages.Serialize` | sabi/crates/sabi-storage/src/page.rs:52-97 | The buffer, filled in place, is the image of the page; a payload that does not fit is refused. |
| `Pages.PageRoundTrip` | sabi/crates/sabi-storage/src/page.rs:52-141 | A page is read back as it was written, with any checksum function over the same bytes. |
| `Pages.PageIsItsBytes` | sabi/crates/sabi-storage/src/page.rs:99-141 | A page is read exactly where its header, its checksum and its payload stand; everything else, a wrong checksum in particular, is refused as corrupt. |
| `Pages.DamagedPageRefused` | sabi/crates/sabi-storage/src/page.rs:118-128 | A page damaged anywhere but in its stored checksum is refused unless the checksums of what was written and of what is read are the same. |
| `PageFiles.PageFile.WritePage` | sabi/crates/sabi-storage/src/page_file.rs:77-93 | Writes one page and leaves all others; overflow is refused before anything is written. |
| `PageFiles.PageFile.WriteNode` | sabi/crates/sabi-storage/src/btree.rs:813-817 | A well-formed node that fits is read back unchanged and every other page is untouched. |
| `PageFiles.PageFile.ParentOf` | sabi/crates/sabi-storage/src/btree.rs:819-822 | The stored parent of a node. |
| `PageFiles.PageFile.PatchParent` | sabi/crates/sabi-storage/src/btree.rs:824-828 | set_parent as written: the patched bytes are what is decoded afterwards. |
| `PageFiles.PageFile.SetParent` | sabi/crates/sabi-storage/src/btree.rs:824-828 | set_parent as the tree code relies on it: the node with its parent set, nothing else changed. |
| `PageFiles.WriteThenRead` | sabi/crates/sabi-storage/src/btree.rs:808-817 | read_node after write_node gives back the node, through node and page codecs together. |
| `PageFiles.ShortKeysFit` | sabi/crates/sabi-storage/src/btree.rs:389-465 | With keys of at most 21 bytes every node of at most 128 keys fits a page. |
| `PageFiles.LongerKeysOverflow` | sabi/crates/sabi-storage/src/page.rs:76-81 | With keys of 22 bytes a full node never fits. |
| `Mvcc.MvccTable.Read` | sabi/crates/sabi-storage/src/mvcc.rs:67-77 | The value of the first version the transaction sees. |
| `Mvcc.MvccTable.Insert` | sabi/crates/sabi-storage/src/mvcc.rs:79-90 | A new version in front of the chain; all else unchanged. |
| `Mvcc.MvccTable.Delete` | sabi/crates/sabi-storage/src/mvcc.rs:92-107 | The first visible version gets the tombstone; an error, exactly when nothing is visible, changes nothing. |
| `Mvcc.InsertReadsAs` | sabi/crates/sabi-storage/src/mvcc.rs:79-90 | What every reader reads after an insert. |
| `Mvcc.DeleteUnseen` | sabi/crates/sabi-storage/src/mvcc.rs:92-107 | A delete by a later writer changes no earlier read, even when it overwrites a tombstone. |
| `Mvcc.InsertStableExactly` | sabi/crates/sabi-storage/src/mvcc.rs:79-90 | Inserts of a writer never disturb a reader if and only if the writer's stamp lies after the reader's snapshot. |
| `Mvcc.DeleteStableExactly` | sabi/crates/sabi-storage/src/mvcc.rs:92-107 | Deletes never disturb it if and only if moreover the writer's snapshot is not older than the reader's. |
| `MvccHistory.ReadsAreStable` | sabi/crates/sabi-storage/src/mvcc.rs:131-173 | No sequence of operations of a transaction itself or of later ones changes what it reads. |
| `MvccHistory.DeleteHidesExactly` | sabi/crates/sabi-storage/src/mvcc.rs:92-107 | A delete hides a row from later states if and only if it hit the only version without a tombstone. |
| `MvccHistory.TimeTravel` | sabi/crates/sabi-storage/src/mvcc.rs:67-107 | Over a run of transactions one after another with clean deletes, a read at any past snapshot gives the value of a plain map at that point. |
| `MvccHistory.TimeTravelExactly` | sabi/crates/sabi-storage/src/mvcc.rs:67-107 | Reads agree with the plain map throughout a run if and only if every delete of the run is clean. |
| `MvccHistory.AtMostOneVisible` | sabi/crates/sabi-storage/src/mvcc.rs:231-234 | If inserts only go to keys that are not live, every state shows at most one version of a key. |
| `MvccDiscipline.DisciplinedChain` | sabi/crates/sabi-storage/src/mvcc.rs:67-107 | If rows are put only when absent and never removed by the transaction that put them, at most the newest version of a row lives, and it does if and only if the plain map has the row. |
| `MvccDiscipline.DisciplineSuffices` | sabi/crates/sabi-storage/src/mvcc.rs:67-107 | That discipline, checked on the plain contents alone, implies the hypotheses of time travel and of there being one visible version. |
| `MvccDiscipline.DisciplinedTimeTravel` | sabi/crates/sabi-storage/src/mvcc.rs:67-107 | For disciplined transactions every past state reads as the plain map and shows one version of a row at most. |
| `MvccHistory.UpdateThenDeleteResurrects` | sabi/crates/sabi-storage/src/mvcc.rs:47-90 | Updating a row and deleting it brings the old version back. |
| `MvccHistory.TiesUnsettleReads` | sabi/crates/sabi-core/src/tx.rs:17-27 | With ids of one millisecond a later insert is read by an earlier reader. |
| `TxIds.DistinctIdsCanTie` | sabi/crates/sabi-core/src/tx.rs:17-27 | Distinct ids can compare as equal. |
| `TxIds.StampIsClock` | sabi/crates/sabi-core/src/tx.rs:31-36 | The stamp of a version 7 id is its first six bytes read as a clock, most significant byte first; any other id counts as time zero. |
| `TxIds.OrderIsOfFirstBytes` | sabi/crates/sabi-core/src/tx.rs:15-28 | Version 7 ids compare as their first six bytes do and tie exactly when these are the same; an id of another version is not after any id. |
| `TxIds.LaterClockLaterId` | sabi/crates/sabi-core/src/tx.rs:15-36 | Of two version 7 ids the one with the larger byte at the first place, among the first six, where they differ is the later one. |
| `TxManager.TransactionManager.Begin` | sabi/crates/sabi-storage/src/mvcc.rs:131-173 | Number, registry slot, snapshot of the slot before and entry in the active map, with everything else unchanged. |
| `TxManager.TransactionManager.Commit` | sabi/crates/sabi-storage/src/mvcc.rs:176-205 | Ends an active transaction and records its number; any other id is an error that changes nothing. |
| `TxManager.TransactionManager.Abort` | sabi/crates/sabi-storage/src/mvcc.rs:207-225 | Ends an active transaction; any other id is an error that changes nothing. |
| `TxManager.BeginAll` | sabi/crates/sabi-storage/src/mvcc.rs:131-173 | Begins one after another produce exactly the chain of snapshots that the histories assume. |
| `TxInterleaving.InvStays` | sabi/crates/sabi-storage/src/mvcc.rs:131-225 | Every atomic step of begin, commit and abort keeps the invariant, whatever the other threads are doing. |
| `TxInterleaving.RunKeeps` | sabi/crates/sabi-storage/src/mvcc.rs:131-225 | Over any interleaving the invariant holds, filled registry slots never change and begun transactions stay. |
| `TxInterleaving.EveryInterleaving` | sabi/crates/sabi-storage/src/mvcc.rs:131-225 | Numbers and ids are distinct, every number drawn is held by a transaction or by a thread on its way, a snapshot is nil or the id with the number before, and whatever began is either active as it began or has ended, exactly once. |
| `TxInterleaving.UninterruptedBegin` | sabi/crates/sabi-storage/src/mvcc.rs:131-173 | A begin that nobody interrupts is that of the manager called by one thread. |
| `TxInterleaving.SnapshotExactly` | sabi/crates/sabi-storage/src/mvcc.rs:147-158 | The snapshot is the id with the number before if and only if that thread has filled its slot by the time the slot is read. |
| `TxInterleaving.SkippedSnapshot` | sabi/crates/sabi-storage/src/mvcc.rs:131-173 | Two threads, and a transaction that begins on an empty snapshot although another number was drawn before. |
| `WalRecords.RecordRoundTrip` | sabi/crates/sabi-storage/src/wal.rs:297-432 | Decoding an encoded record gives it back with the bytes of its id permuted. |
| `WalRecords.RecordRoundTripExactly` | sabi/crates/sabi-storage/src/wal.rs:305-364 | A record comes back unchanged if and only if the permutation leaves its id alone. |
| `WalRecords.RecordIsItsBytes` | sabi/crates/sabi-storage/src/wal.rs:297-432 | A record is read exactly where its bytes, id permuted, stand; trailing bytes are ignored. |
| `WalFraming.WalWriter.Append` | sabi/crates/sabi-storage/src/wal.rs:181-220 | Appends one frame; only a commit record forces the file to disk. |
| `WalFraming.WalReader.Next` | sabi/crates/sabi-storage/src/wal.rs:252-293 | One record off the rest of the file, a clean end, or the error for a short or damaged frame. |
| `WalFraming.NothingOpens` | sabi/crates/sabi-storage/src/wal.rs:229-250 | As written no file whatsoever passes the version test, least of all one a writer made. |
| `WalFraming.CompleteIsMost` | sabi/crates/sabi-storage/src/wal.rs:181-220 | The count of complete frames is the largest number that fits the cut. |
| `WalFraming.CutLog` | sabi/crates/sabi-storage/src/wal.rs:181-293 | For every list of records and every cut the reader yields exactly the records with complete frames, and ends cleanly if and only if the cut is between frames. |
| `WalFraming.FrameDecides` | sabi/crates/sabi-storage/src/wal.rs:252-293 | Bytes that begin with a whole frame: a wrong checksum is refused as corrupt whatever the payload is, and with the right one the payload alone decides. |
| `WalFraming.ReadsWholeFramesOnly` | sabi/crates/sabi-storage/src/wal.rs:252-293 | Nothing but a whole frame with the right checksum is read as a record, and nothing but the end of the file as the end of the log. |
| `WalFraming.DamageEndsLog` | sabi/crates/sabi-storage/src/wal.rs:283-291 | A frame with a wrong checksum, behind any whole frames and in front of any bytes, ends the log: the records in front come back, then the error. |
| `WalReplay.ReplayFrom` | sabi/crates/sabi-storage/src/wal.rs:445-475 | The replay loop on an opened reader: the filtered records, or the error that ended the reading. |
| `WalReplay.ReplayIsExact` | sabi/crates/sabi-storage/src/wal.rs:461-474 | In log order, exactly the records other than aborts of transactions with a commit anywhere, each as often as the log has it. |
| `WalReplay.ReplayTwice` | sabi/crates/sabi-storage/src/wal.rs:461-474 | Replaying what was replayed changes nothing. |
| `WalReplay.RecordIrrelevantExactly` | sabi/crates/sabi-storage/src/wal.rs:461-474 | A record anywhere makes no difference if and only if it is an abort or its transaction has no commit. |
| `WalReplay.LongerLog` | sabi/crates/sabi-storage/src/wal.rs:461-474 | A longer log only adds records to what is replayed. |
| `WalReplay.NothingReplayedExactly` | sabi/crates/sabi-storage/src/engine.rs:44-53 | Nothing comes back if and only if the log has no commit record; the engine writes none. |
| `WalReplay.AbortedGoneExactly` | sabi/crates/sabi-storage/src/engine.rs:56-60 | The records of an aborted transaction are ignored if and only if it has no commit record. |
| `WalReplay.ReplayRenamed` | sabi/crates/sabi-storage/src/wal.rs:436-475 | Replay commutes with every renaming that keeps different ids different. |
| `WalReplay.ReplayReadBack` | sabi/crates/sabi-storage/src/wal.rs:305-364 | So the permutation of ids by itself does no harm to replay. |
| `WalReplay.AllOrNothing` | sabi/crates/sabi-storage/src/wal.rs:436-475 | However many records survive, a transaction whose commit was its last record is replayed whole or not at all. |
| `WalReplay.ReplayCut` | sabi/crates/sabi-storage/src/wal.rs:181-475 | Append, lose the end of the file, replay: between frames the surviving committed records, elsewhere an error. |
| `VersionCodec.SerializeVersions` | sabi/crates/sabi-storage/src/engine.rs:206-230 | The payload of a chain is its encoding. |
| `VersionCodec.DeserializeVersions` | sabi/crates/sabi-storage/src/engine.rs:241-306 | Decoding version by version, errors and short payloads included. |
| `VersionCodec.ChainRoundTrip` | sabi/crates/sabi-storage/src/engine.rs:206-306 | A chain that fits a page is read back as it was written. |
| `VersionCodec.VersionIsItsBytes` | sabi/crates/sabi-storage/src/engine.rs:241-306 | A version is read exactly where its bytes stand, with the marker 1 for a tombstone and any other byte for none; anything else is corrupt. |
| `VersionCodec.LongChainsNeverFit` | sabi/crates/sabi-storage/src/engine.rs:86-89 | A chain of more than 193 versions fits no page, so no key can be written more often than that. |
| `CompositeKeys.ExtractExactly` | sabi/crates/sabi-storage/src/engine.rs:317-321 | Extraction undoes construction if and only if the table name has no zero byte. |
| `CompositeKeys.TablesApartExactly` | sabi/crates/sabi-storage/src/engine.rs:309-315 | Two tables never share an index key if and only if neither name runs into the other at a zero byte. |
| `CompositeKeys.CompositeOrder` | sabi/crates/sabi-storage/src/engine.rs:309-315 | Within a table the index order is the order of the keys. |
| `CompositeKeys.ScanStaysInTable` | sabi/crates/sabi-storage/src/engine.rs:174-178 | What lies between two keys of a table is exactly the table's keys between them. |
| `CompositeKeys.TablesAreIntervals` | sabi/crates/sabi-storage/src/engine.rs:309-315 | No key of another table falls between two keys of a table. |
| `CompositeKeys.EmptyBoundsAdmit` | sabi/crates/sabi-sql/src/executor/mod.rs:158-160 | A full scan with empty bounds admits the empty key and nothing else. |
| `Engines.StorageEngine.New` | sabi/crates/sabi-storage/src/engine.rs:31-41 | A new engine is valid, both copies agree and the index is empty; it fails only on a full file. |
| `Engines.StorageEngine.Remember` | sabi/crates/sabi-storage/src/mvcc.rs:79-90 | The copy in memory gets the new version in front; no other row changes. |
| `Engines.StorageEngine.WriteChain` | sabi/crates/sabi-storage/src/engine.rs:84-89 | A chain goes to its page without touching index nodes or other data pages; one that does not fit is refused. |
| `Engines.StorageEngine.StoreVersion` | sabi/crates/sabi-storage/src/engine.rs:73-89 | Memory gets the version even if its page cannot take the chain; the page is new and belongs to nothing else. |
| `Engines.StorageEngine.Insert` | sabi/crates/sabi-storage/src/engine.rs:73-98 | Insert as written over the repaired index: pages stay disjoint for any keys; the index stays ordered, and the two copies of every chain stay the same, each if and only if the row was not there before. A chain that fits, under a key of at most 21 bytes, fails only on a full file. |
| `Engines.StorageEngine.Get` | sabi/crates/sabi-storage/src/engine.rs:100-124 | Never fails on a valid engine; reads the chain on disk, and equals the table's own read when the copies agree. |
| `Engines.StorageEngine.BuryOnDisk` | sabi/crates/sabi-storage/src/engine.rs:129-150 | The first visible version of the chain on disk, and nothing else, gets the tombstone. |
| `Engines.StorageEngine.Delete` | sabi/crates/sabi-storage/src/engine.rs:127-156 | As written: only the disk changes, the answer is Ok even if nothing was visible, and the copies still agree if and only if the tombstone changed nothing. |
| `Engines.StorageEngine.RangeScan` | sabi/crates/sabi-storage/src/engine.rs:162-199 | Never fails on a valid engine; the rows are those of the index range with a live version, each with the value of its first live version. |
| `Engines.StorageEngine.InsertRepaired` | sabi/crates/sabi-storage/src/engine.rs:62-98 | With an overwriting index both copies agree after every insert; a chain that fits, under a key of at most 21 bytes, fails only on a full file. |
| `Engines.StorageEngine.DeleteRepaired` | sabi/crates/sabi-storage/src/engine.rs:127-156 | With the delete applied to both copies they agree after every delete; missing rows and full pages are reported as such. |
| `EngineData.AgreeExactly` | sabi/crates/sabi-storage/src/engine.rs:309-315 | Whatever is done to one row, the copies of all rows agree afterwards if and only if they agree on that one. |
| `EngineData.DuplicateDisagrees` | sabi/crates/sabi-storage/src/engine.rs:73-98 | After a second insert of a row the index still finds its old, shorter chain, so the two copies differ. |
| `EngineData.ScanPicksAsReadExactly` | sabi/crates/sabi-storage/src/engine.rs:188-195 | A scan picks the version a read picks if and only if that version has no tombstone. |
| `EngineData.ScanNoticesLaterDelete` | sabi/crates/sabi-storage/src/engine.rs:188-195 | A delete that no read of a snapshot notices changes what its scans pick, whenever there was a live version to pick. |
| `EngineData.ScanValueIs` | sabi/crates/sabi-storage/src/engine.rs:188-195 | A scan returns a value for a row if and only if some version with that value is visible and without a tombstone and none before it is. |
| `EngineData.ScanReadsAlike` | sabi/crates/sabi-storage/src/engine.rs:188-195 | A scan returns what a read returns whenever the version a read picks has no tombstone, or there is none to pick. |
| `EngineData.ScanIsExact` | sabi/crates/sabi-storage/src/engine.rs:162-199 | A scan returns the rows of its own table between the bounds that have a live version, each once, in key order, with their own keys. |
| `EngineData.FullScanSeesEmptyKeyOnly` | sabi/crates/sabi-sql/src/executor/mod.rs:158-160 | The executor's full scan returns at most the row with the empty key. |
| `EngineRuns.RunRepaired` | sabi/crates/sabi-storage/src/engine.rs:73-156 | After any run of repaired inserts and deletes over any tables both copies are the version chains of the run; if every row fits its key and page the run succeeds unless the file ends up full. |
| `EngineRuns.RunPutOnce` | sabi/crates/sabi-storage/src/engine.rs:73-156 | After any run, over any tables, of insert and delete as written that puts every row once, on the repaired index, the chains on disk are those of the run; with at most 128 rows the index never splits. |
| `EngineRuns.HistoryOnDisk` | sabi/crates/sabi-storage/src/engine.rs:62-156 | Time travel on disk: over a clean history of any tables on a new engine, a reader behind transaction n gets the value of a plain map at that point; if every row fits, only a full file can prevent it. |
| `EngineRuns.HistoryOnRepairedIndex` | sabi/crates/sabi-storage/src/engine.rs:73-156 | The same with insert and delete as written, for histories that put every row once, over the repaired index; up to 128 rows it never splits. |
| `EngineRuns.HistoryAsWritten` | sabi/crates/sabi-storage/src/engine.rs:73-156 | The same with the engine as written, tree included, for histories that put at most 128 rows and each once. |
| `EngineRuns.ScanOnDisk` | sabi/crates/sabi-storage/src/engine.rs:162-199 | After a clean history on the repaired engine, a scan behind the last transaction returns exactly the rows of the plain map of its table between the bounds, with their values, each once and in key order. |
| `EngineRuns.ScanAsWritten` | sabi/crates/sabi-storage/src/engine.rs:162-199 | The same with the engine as written, for histories that put at most 128 rows and each once. |
| `SqlValues.CompareIsTotalOrder` | sabi/crates/sabi-sql/src/types.rs:37-62 | Values compare exactly within their type, and there by a total order. |
| `SqlValues.ValueRoundTrip` | sabi/crates/sabi-sql/src/types.rs:73-131 | A value is read back from its bytes whatever follows them. |
| `SqlValues.ReadBackValue` | sabi/crates/sabi-sql/src/executor/mod.rs:456-494 | Reading a value at its place in a row gives it back and moves the cursor behind it, or one byte short behind a Boolean as written. |
| `SqlValues.ValueIsItsBytes` | sabi/crates/sabi-sql/src/executor/mod.rs:456-494 | A value is read exactly where its bytes stand, except that any byte but 0 counts as true; anything else is an error. |
| `Utf8Texts.Utf8Exactly` | sabi/crates/sabi-sql/src/executor/mod.rs:479-480 | A byte string is accepted as a text if and only if it encodes a sequence of Unicode scalar values. |
| `Exprs.DependsOnFreeColumns` | sabi/crates/sabi-sql/src/executor/mod.rs:516-604 | Evaluation depends on the columns an expression mentions and on nothing else, errors included. |
| `Exprs.MissingColumnFails` | sabi/crates/sabi-sql/src/executor/mod.rs:524-531 | A mentioned column that is missing is always an error: nothing is short-circuited. |
| `Exprs.WellTypedEvaluates` | sabi/crates/sabi-sql/src/executor/mod.rs:516-645 | A well-typed predicate evaluates without an error, NULLs included, to a value of its type or NULL. |
| `Exprs.TypingIsExact` | sabi/crates/sabi-sql/src/executor/mod.rs:516-645 | A predicate is well typed if and only if it evaluates without an error in every context of its types. |
| `ExprLaws.AtomsMean` | sabi/crates/sabi-sql/src/executor/mod.rs:521-528 | Literals and columns stand for their values; true, numbers but 0 and texts but the empty one let a row pass. |
| `ExprLaws.EqualityMeans` | sabi/crates/sabi-sql/src/executor/mod.rs:535-536 | = is true if and only if both sides have the same value, NULLs and different types included; != is its negation. |
| `ExprLaws.LogicMeans` | sabi/crates/sabi-sql/src/executor/mod.rs:541-565 | AND, OR and NOT let a row pass if and only if both, one or none of their operands do. |
| `ExprLaws.DeMorgan` | sabi/crates/sabi-sql/src/executor/mod.rs:541-565 | De Morgan's laws, errors included. |
| `ExprLaws.ComparisonMeans` | sabi/crates/sabi-sql/src/executor/mod.rs:625-645 | The four comparisons: numbers by size, texts byte by byte, false below true; NULL on either side gives NULL, different types an error. |
| `ExprLaws.NullNeverPasses` | sabi/crates/sabi-sql/src/executor/mod.rs:631-634 | A row never passes a comparison with NULL. |
| `ExprLaws.BetweenMeans` | sabi/crates/sabi-sql/src/executor/mod.rs:589-600 | BETWEEN succeeds if and only if both its comparisons do, and is then their AND. |
| `ExprLaws.NullTestsMean` | sabi/crates/sabi-sql/src/executor/mod.rs:579-587 | IS NULL is true of NULL and of nothing else; IS NOT NULL is its negation. |
| `ExprLaws.ArithmeticMeans` | sabi/crates/sabi-sql/src/executor/mod.rs:551-553 | Sums, differences and products are exact whenever they fit, and off by a multiple of 2^64 otherwise; anything but two numbers is an error. |
| `ExprLaws.DivisionMeans` | sabi/crates/sabi-sql/src/executor/mod.rs:554 | Division truncates toward zero, stated by its remainder; it fails on a zero divisor and on the one quotient that does not fit. |
| `ExprLaws.NegationMeans` | sabi/crates/sabi-sql/src/executor/mod.rs:566-574 | Negation is subtraction from zero, errors included. |
| `ExprLaws.LikeMeans` | sabi/crates/sabi-sql/src/executor/mod.rs:719-736 | LIKE of two texts is what the matcher says of the text and the pattern, in this order; anything else is an error. |
| `ExprLaws.ErrorsPropagate` | sabi/crates/sabi-sql/src/executor/mod.rs:530-532 | The first operand that fails decides the error. |
| `RowCodec.SerializeRow` | sabi/crates/sabi-sql/src/executor/mod.rs:390-437 | The bytes are those of the checked values, or the first error in column order. |
| `RowCodec.CheckedAreEvaluated` | sabi/crates/sabi-sql/src/executor/mod.rs:398-433 | An INSERT is accepted if and only if there is an expression for every name, every name is a column and every value is NULL or of its column's type; what is stored is the value of each expression in its place. |
| `RowCodec.StoreThenLoad` | sabi/crates/sabi-sql/src/executor/mod.rs:390-497 | What is loaded is the list of the evaluated expressions: always once the cursor moves past Booleans, and as written, for a full row, if and only if the row reads back. |
| `RowCodec.ContextHas` | sabi/crates/sabi-sql/src/executor/mod.rs:499-514 | A predicate sees a column if and only if the row has a value for it, and sees the value of its last mention. |
| `RowCodec.DeserializeRow` | sabi/crates/sabi-sql/src/executor/mod.rs:439-497 | The loop decodes value by value, short rows and errors included, as written and with the cursor repaired. |
| `RowCodec.RowRoundTrip` | sabi/crates/sabi-sql/src/executor/mod.rs:390-497 | Once the cursor moves past Booleans every row is read back as it was written. |
| `RowCodec.RowRoundTripExactly` | sabi/crates/sabi-sql/src/executor/mod.rs:484-489 | As written a row is read back if and only if no Boolean has a column behind it that is not its echo. |
| `RowCodec.EncodeInjective` | sabi/crates/sabi-sql/src/executor/mod.rs:378-386 | Different rows have different bytes, so keys of tables without a key list are distinct too. |
| `RowCodec.ColumnListReadsBackExactly` | sabi/crates/sabi-sql/src/executor/mod.rs:398-404 | Values inserted with a column list are found under their names if and only if the list is a beginning of the schema. |
| `RowCodec.AcceptedRowsEvaluate` | sabi/crates/sabi-sql/src/executor/mod.rs:390-645 | A row accepted by serialize_row and read back makes every well-typed predicate evaluate without an error. |
| `RowKeys.BuildRowKey` | sabi/crates/sabi-sql/src/executor/mod.rs:332-388 | The key of a row, or the first error, for tables with and without a primary key list. |
| `RowKeys.EncodeKeyInjective` | sabi/crates/sabi-sql/src/executor/mod.rs:340-375 | Primary keys are injective on tuples of values. |
| `RowKeys.KeyValuesAreGiven` | sabi/crates/sabi-sql/src/executor/mod.rs:346-366 | The key values are what the INSERT gives for the key columns, in the order of the key; the first that is missing or fails decides the error. |
| `RowKeys.GivenAt` | sabi/crates/sabi-sql/src/executor/mod.rs:347-366 | What an INSERT gives for a column is the value of the expression at the first place of its name in the column list. |
| `RowKeys.AllValuesAre` | sabi/crates/sabi-sql/src/executor/mod.rs:378-383 | Without a key list the values of all expressions count, in their order. |
| `RowKeys.SameKeyExactly` | sabi/crates/sabi-sql/src/executor/mod.rs:340-375 | Two rows get the same key if and only if they are given the same value for every column of the primary key. |
| `RowKeys.SameRowExactly` | sabi/crates/sabi-sql/src/executor/mod.rs:376-387 | Without a key list two rows get the same key if and only if they are given the same values throughout. |
| `RowKeys.PrimaryKeyIs` | sabi/crates/sabi-sql/src/planner/mod.rs:120-129 | The primary key of a new table lists the flagged columns, all of them and in their order. |
| `RowKeys.FullScanSeesRowExactly` | sabi/crates/sabi-sql/src/planner/mod.rs:120-129 | A row lies within the executor's full scan if and only if its table has no primary key, and then its key is the empty one, as every other row's. |
| `Plans.ResolveSelectItems` | sabi/crates/sabi-sql/src/planner/mod.rs:240-272 | The result columns of a SELECT, or the first error. |
| `Plans.HeadingsAre` | sabi/crates/sabi-sql/src/planner/mod.rs:240-272 | Each item but * has one heading, its alias or else its column; they resolve if and only if all are columns of the table. |
| `Plans.WildcardMeansAll` | sabi/crates/sabi-sql/src/planner/mod.rs:249-252 | Wherever * stands, it stands for all columns. |
| `Plans.ExecuteScan` | sabi/crates/sabi-sql/src/executor/mod.rs:143-190 | Decode, select, filter, row by row, up to the first error. |
| `Plans.FilterNodeIsRedundant` | sabi/crates/sabi-sql/src/planner/mod.rs:198-204 | The Filter node above a filtered Scan changes no result, whether the scan succeeds or fails. |
| `Plans.ScanKeepsMeaning` | sabi/crates/sabi-sql/src/executor/mod.rs:162-190 | Select-then-filter equals filter-then-select, errors included, when the predicate mentions selected columns only. |
| `Plans.ScanKeepsMeaningExactly` | sabi/crates/sabi-sql/src/executor/mod.rs:162-190 | On a table with rows on which the predicate is fine this holds if and only if every column of the predicate is selected. |
| `Plans.SelectMeansWhatItSays` | sabi/crates/sabi-sql/src/planner/mod.rs:176-226 | An unaliased SELECT, planned and executed, returns the selection of the rows that pass its predicate. |
| `Plans.SelectReturns` | sabi/crates/sabi-sql/src/planner/mod.rs:176-226 | By rows: an unaliased SELECT, with or without WHERE, returns the qualifying rows, all of them and in their order, each as the values of the headings' columns, or whole if there are none. |
| `Plans.ScanSucceedsExactly` | sabi/crates/sabi-sql/src/executor/mod.rs:162-190 | A scan over rows that decode fails if and only if the predicate fails on one of them. |
| `Plans.UndecodableFails` | sabi/crates/sabi-sql/src/executor/mod.rs:162-170 | A stored row that does not decode makes the scan fail, wherever it is. |
| `Plans.WidthKeptExactly` | sabi/crates/sabi-sql/src/planner/mod.rs:260-262 | A selected row keeps its width if and only if all names, aliases included, are columns. |
| `Sessions.Executor.ExecuteBegin` | sabi/crates/sabi-sql/src/executor/mod.rs:282-295 | BEGIN succeeds if and only if no transaction is open, and opens one that may write, with the next number and the snapshot of the one before. |
| `Sessions.Executor.ExecuteCommit` | sabi/crates/sabi-sql/src/executor/mod.rs:297-307 | COMMIT succeeds if and only if a transaction is open, ends exactly that one and records it as the latest commit. |
| `Sessions.Executor.ExecuteRollback` | sabi/crates/sabi-sql/src/executor/mod.rs:309-319 | ROLLBACK succeeds if and only if a transaction is open, ends exactly that one and leaves the latest commit alone. |
| `Sessions.Executor.ExecuteWrite` | sabi/crates/sabi-sql/src/executor/mod.rs:102-141 | An auto-committed write leaves the active transactions as they were if and only if its work succeeded, and never touches another transaction. |
| `Sessions.Executor.ExecuteRead` | sabi/crates/sabi-sql/src/executor/mod.rs:143-154 | A read never ends a transaction, not even its own. |
| `Sessions.Executor.Execute` | sabi/crates/sabi-sql/src/executor/mod.rs:47-73 | Whatever the statement, a current transaction exists exactly when auto-commit is off and is active in the manager; the set of active ids changes by exactly the ids the statement begins or ends. |
| `Sessions.Server.Handle` | sabi/crates/sabi-sql/src/executor/mod.rs:29-45 | One session's statement leaves every other session's transaction in place. |
| `Sessions.Serve` | sabi/crates/sabi-sql/src/executor/mod.rs:47-330 | Any number of sessions and any run of statements: every answer, every session's open transaction, the active ids, the numbers drawn and the latest commit follow from the sessions' own histories; COMMIT and ROLLBACK inside a transaction never fail. |
| `Sessions.ActiveExactly` | sabi/crates/sabi-sql/src/executor/mod.rs:102-338 | A transaction is active if and only if it is open in some session or was left behind by a read, or a failed write, outside any transaction. |
| `Sessions.OpenExactly` | sabi/crates/sabi-sql/src/executor/mod.rs:282-319 | A session has a transaction open if and only if it ran a BEGIN and neither COMMIT nor ROLLBACK since, and then that of the first such BEGIN. |
| `Sessions.NumbersInOrder` | sabi/crates/sabi-sql/src/executor/mod.rs:321-330 | Numbers go to the statements that begin a transaction, the session's or their own, in the order of the run. |
| `Sessions.LatestExactly` | sabi/crates/sabi-sql/src/executor/mod.rs:102-141 | The latest commit is that of the last statement that committed anything: a COMMIT its session's transaction, a write outside one its own. |
| `Layouts.PageLayout` | sabi/crates/sabi-storage/src/page.rs:52-97 | The bytes of a page, by example: magic, type, flags, number, log position, length, checksum, payload, zeros. |
| `Layouts.NodeLayout` | sabi/crates/sabi-storage/src/btree.rs:389-466 | The bytes of a leaf and of an internal node, by example. |
| `Layouts.ChainLayout` | sabi/crates/sabi-storage/src/engine.rs:206-230 | The bytes of a version chain, by example. |
| `Layouts.IdLayout` | sabi/crates/sabi-storage/src/wal.rs:305 | The permutation of the bytes of an id in the log, by example. |
| `Layouts.RecordLayout` | sabi/crates/sabi-storage/src/wal.rs:297-353 | The bytes of the five kinds of log records, by example. |
| `Layouts.LogLayout` | sabi/crates/sabi-storage/src/wal.rs:155-220 | The file header and a frame, by example. |
| `Layouts.ValueLayout` | sabi/crates/sabi-sql/src/types.rs:73-91 | The bytes of SQL values, by example. |
| `Layouts.RowLayout` | sabi/crates/sabi-sql/src/executor/mod.rs:340-437 | The bytes of rows, row keys and index keys, by example. |

## Left out

- BTrees.BTree.Insert: after an error nothing is promised about the tree but that its pages still decode; the code may stop half way through a split, and nothing rolls it back.
- BTrees.BTree.Insert: order and sorted contents are promised for keys that are absent; for a key that is there only the shape and the multiset of pairs.
- Engines.StorageEngine.Insert: after an I/O error in the index nothing is promised about the index; memory keeps the version.
- RawTrees.InsertAll: a walk over pages that are no tree any more may never end; the number of steps it may take is a parameter, and running out of them counts as an error.
- StaleParents.AgreeExactlyWithoutSplit: stops before the recursion into the grandparent.
- Engines.StorageEngine.Get: says what is found only while the index is ordered, since with two entries for one key the answer depends on where splits fell.
- PageFiles.PageFile.WritePage: file system errors other than an unaddressable page are not modelled.
- Pages.PageRoundTrip: the checksum is an arbitrary function of the bytes, so that damage goes undetected is not excluded.
- Pages.Serialize: the in-memory copy of the payload length is not modelled; the code recomputes it.
- Exprs.TypingIsExact: arithmetic, negation, LIKE, function calls and IN lists are outside the typed fragment; arithmetic on a NULL is an error in the code whatever the types.
- Exprs.WellTypedEvaluates: LIKE rests on the regex crate and is an arbitrary function of two texts.
- TxInterleaving.EveryInterleaving: the number of the latest commit is not part of these steps; `Sessions.LatestExactly` has it for whole statements.
- EngineRuns.ScanOnDisk: reads as of the end of the history; scans of earlier snapshots notice later deletes (`EngineData.ScanNoticesLaterDelete`).
- Sessions.Serve: the storage work of a statement is a parameter (a row count or an error), ids are assumed never to repeat, and the lock around each statement makes it one step.
- TxManager.TransactionManager.Begin: called by one thread at a time; `TxInterleaving` has the interleavings.
- MvccHistory.TimeTravel: full snapshot isolation, rollback of aborted versions and reading one's own writes are not claimed, because the visibility rule does not provide them.
- Freed pages: the tree and the engine never free a page, so their theorems assume an empty free list.
- Log flushing and the write order between log and pages; recovery of the engine from its log, for which the code has no function.
- The WAL handle shared by index and engine is one list of records of the index.
- UUID generation, and time stamps of UUID versions 1 and 6, which the database never makes.
- `plan_insert`, `plan_delete`, `execute_limit`, LIMIT constants, the catalog, `extract_key_from_composite_with_table`, `get_table_entry`, `Display` implementations and error messages: easy members only.
- The conversion from the sqlparser crate, the JavaScript runtime, the TCP server, the wire protocol and the command line.
- Full table scans that decode and delete rows (`execute_delete`): composed of the scan, filter and delete steps modelled here.
